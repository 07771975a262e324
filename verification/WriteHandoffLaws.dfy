/** No value that is set is lost, except where this is said exactly. */
module WriteHandoffLaws {
  import opened Common
  import opened RegisterHandler
  import opened WriteHandoff

  // ----- single registers -----

  lemma DeferredIsRight(g: Register, now: int, at: int, max: nat)
    requires FateIsRight(g) && TimesAreRight(g, now, max) && now <= at
    ensures FateIsRight(Deferred(g, at, max)) && TimesAreRight(Deferred(g, at, max), at, max)
  {
  }

  lemma SettledIsRight(g: Register, stage: Stage, now: int, at: int, max: nat)
    requires stage.Answered? && StageIsRight(g, stage)
    requires FateIsRight(g) && TimesAreRight(g, now, max) && now <= at
    ensures var after := Settled(g, stage.written, stage.outcome, at, max);
      FateIsRight(after) && TimesAreRight(after, at, max)
  {
  }

  lemma RegisterStaysRight(s: State, a: Action, r: Reg)
    requires r in s.regs && IsEnabled(s, a) && IsRight(s, r)
    ensures var g := Step(s, a).regs[r];
      FateIsRight(g) && TimesAreRight(g, Step(s, a).now, s.maxWriteFailTime)
  {
    var g := s.regs[r];
    match a {
      case Defer(at) => DeferredIsRight(g, s.now, at, s.maxWriteFailTime);
      case Settle(at) =>
        if s.thread.reg == r {
          SettledIsRight(g, s.thread.stage, s.now, at, s.maxWriteFailTime);
        }
      case _ =>
    }
  }

  lemma StageStaysRight(s: State, a: Action, r: Reg)
    requires r in s.regs && IsEnabled(s, a) && IsRight(s, r)
    ensures var t := Step(s, a);
      t.thread.Running? && t.thread.reg == r ==> StageIsRight(t.regs[r], t.thread.stage)
  {
  }

  /**
   A step that leaves a waiting value without a task: a register that has no other task is not supported by its device,
   or a text cannot be converted when its register has none.
   */
  predicate LosesTask(s: State, a: Action, r: Reg) {
    match a
    case SetBadText(reg) => reg == r && !HasTask(s, r)
    case RefuseUnsupported =>
      && s.thread.Running? && s.thread.reg == r
      && r !in s.tasks && r !in s.adding && r !in s.retry && r !in s.thread.rest
    case _ => false
  }

  predicate IsCovered(s: State, r: Reg)
    requires r in s.regs
  {
    s.regs[r].handler.dirty ==> HasTask(s, r)
  }

  lemma TaskStays(s: State, a: Action, r: Reg)
    requires r in s.regs && IsEnabled(s, a) && HasTask(s, r)
    requires Step(s, a).regs[r].handler.dirty && !(a == RefuseUnsupported && s.thread.reg == r)
    ensures HasTask(Step(s, a), r)
  {
  }

  /** If a waiting value has a task, then it still has one after a step, or is not waiting any more: with two exceptions. */
  lemma TaskIsLostExactly(s: State, a: Action, r: Reg)
    requires r in s.regs && IsEnabled(s, a) && IsCovered(s, r) && IsRight(s, r)
    ensures r in Step(s, a).regs
    ensures !IsCovered(Step(s, a), r) <==> LosesTask(s, a, r)
  {
    if Step(s, a).regs[r].handler.dirty && HasTask(s, r) && !(a == RefuseUnsupported && s.thread.reg == r) {
      TaskStays(s, a, r);
    }
  }

  /** Every step keeps what is right of every register. */
  lemma StepStaysRight(s: State, a: Action, r: Reg)
    requires r in s.regs && IsEnabled(s, a) && IsRight(s, r)
    ensures r in Step(s, a).regs && IsRight(Step(s, a), r)
  {
    RegisterStaysRight(s, a, r);
    StageStaysRight(s, a, r);
    var t := Step(s, a);
    if t.regs[r].handler.dirty && HasTask(s, r) && !(a == RefuseUnsupported && s.thread.reg == r) {
      TaskStays(s, a, r);
    }
  }

  /**
   In every run: a waiting value has a task unless it was orphaned; a value that does not wait is the last one that the
   device has received, unless the device refused it or did not answer; and one that was set while no write was failing
   is given up only after it has been tried for longer than values are kept.
   */
  lemma {:induction false} RunIsRight(regs: set<Reg>, now: int, max: nat, actions: seq<Action>, r: Reg)
    requires r in regs
    ensures var s := Run(Initial(regs, now, max), actions);
      r in s.regs && s.maxWriteFailTime == max && IsRight(s, r)
  {
    if actions != [] {
      var before := Run(Initial(regs, now, max), actions[..|actions| - 1]);
      var a := actions[|actions| - 1];
      RunIsRight(regs, now, max, actions[..|actions| - 1], r);
      if IsEnabled(before, a) {
        StepStaysRight(before, a, r);
      }
    }
  }

  /** In a run a step took the last task from a waiting value, and no other value has been set since. */
  predicate Forgets(s: State, actions: seq<Action>, r: Reg) {
    actions != [] &&
    var earlier, a := actions[..|actions| - 1], actions[|actions| - 1];
    var before := Run(s, earlier);
    || (IsEnabled(before, a) && LosesTask(before, a, r))
    || (Forgets(s, earlier, r) && !(IsEnabled(before, a) && a.SetValue? && a.reg == r))
  }

  lemma UncoveredStays(s: State, a: Action, r: Reg)
    requires r in s.regs && IsEnabled(s, a) && !IsCovered(s, r)
    ensures r in Step(s, a).regs
    ensures IsCovered(Step(s, a), r) <==> a.SetValue? && a.reg == r
  {
  }

  /** After any run, a waiting value has no task exactly if it was forgotten. */
  lemma {:induction false} ForgottenExactly(regs: set<Reg>, now: int, max: nat, actions: seq<Action>, r: Reg)
    requires r in regs
    ensures var s := Run(Initial(regs, now, max), actions);
      r in s.regs && (!IsCovered(s, r) <==> Forgets(Initial(regs, now, max), actions, r))
  {
    if actions != [] {
      var earlier, a := actions[..|actions| - 1], actions[|actions| - 1];
      var before := Run(Initial(regs, now, max), earlier);
      ForgottenExactly(regs, now, max, earlier, r);
      if IsEnabled(before, a) {
        RunIsRight(regs, now, max, earlier, r);
        if IsCovered(before, r) {
          TaskIsLostExactly(before, a, r);
        } else {
          UncoveredStays(before, a, r);
        }
      }
    }
  }

  /** In a run a register is never found to be unsupported, and its texts can be converted; others may well fail. */
  predicate NeverFails(s: State, actions: seq<Action>, r: Reg) {
    actions == [] ||
    var earlier, a := actions[..|actions| - 1], actions[|actions| - 1];
    var before := Run(s, earlier);
    && NeverFails(s, earlier, r)
    && a != SetBadText(r)
    && !(a == RefuseUnsupported && IsEnabled(before, a) && before.thread.reg == r)
  }

  lemma {:induction false} NeverForgets(s: State, actions: seq<Action>, r: Reg)
    requires NeverFails(s, actions, r)
    ensures !Forgets(s, actions, r)
  {
    if actions != [] {
      NeverForgets(s, actions[..|actions| - 1], r);
    }
  }

  /**
   A value of a supported register whose texts can be converted is never left waiting without a task, whatever becomes of
   other registers.
   */
  lemma {:induction false} NoValueIsForgotten(regs: set<Reg>, now: int, max: nat, actions: seq<Action>, r: Reg)
    requires r in regs && NeverFails(Initial(regs, now, max), actions, r)
    ensures var s := Run(Initial(regs, now, max), actions);
      && r in s.regs
      && (s.regs[r].handler.dirty ==> HasTask(s, r))
      && (!s.regs[r].handler.dirty ==>
            var g := s.regs[r];
            g.fate == NeverSet || g.fate == RefusedByDevice || g.fate.TimedOut?
            || g.received == Some(g.handler.valueToSet))
  {
    RunIsRight(regs, now, max, actions, r);
    ForgottenExactly(regs, now, max, actions, r);
    NeverForgets(Initial(regs, now, max), actions, r);
  }

  // ----- what happens to a newer value -----

  /** A value that is set while another one is being written survives every answer, even the last failure. */
  lemma SettlingKeepsNewerValue(s: State, at: int)
    requires IsEnabled(s, Settle(at)) && IsRight(s, s.thread.reg)
    requires s.thread.stage.written != s.regs[s.thread.reg].handler.valueToSet
    ensures var r, t := s.thread.reg, Step(s, Settle(at));
      && IsEnabled(t, Finish)
      && t.regs[r].handler.dirty && t.regs[r].fate == s.regs[r].fate
      && r in Step(t, Finish).retry
  {
  }

  /** A value that cannot even be tried is dropped exactly if the first failure is too long ago, however new it is. */
  lemma DeferralDrops(s: State, at: int)
    requires IsEnabled(s, Defer(at)) && IsRight(s, s.thread.reg)
    ensures var g := s.regs[s.thread.reg];
      !Step(s, Defer(at)).regs[s.thread.reg].handler.dirty
      <==> g.handler.writeFail && IsTimedOut(g.handler.firstTry, at, s.maxWriteFailTime)
  {
  }

  lemma {:induction false} RunNext(s: State, actions: seq<Action>, a: Action)
    requires IsEnabled(Run(s, actions), a)
    ensures Run(s, actions + [a]) == Step(Run(s, actions), a)
  {
  }

  /** A value whose task has been taken. */
  lemma OneTask() returns (actions: seq<Action>)
    ensures var s := Run(Initial({7}, 0, 1), actions);
      && 7 in s.regs && s.tasks == [] && s.adding == multiset{} && s.retry == [] && s.thread == Picking([7])
      && s.regs[7] == Register(Handler(1, true, false, 0), None, Pending(0, true), false)
  {
    var s := Initial({7}, 0, 1);
    actions := [];
    RunNext(s, actions, SetValue(7, 1, 0));
    actions := actions + [SetValue(7, 1, 0)];
    RunNext(s, actions, AddTask(7));
    actions := actions + [AddTask(7)];
    RunNext(s, actions, TakeTasks);
    actions := actions + [TakeTasks];
  }

  /** A run that finds its register unsupported: the value waits, and no task will ever write it. */
  lemma UnsupportedIsForgotten() returns (actions: seq<Action>)
    ensures var s := Run(Initial({7}, 0, 1), actions);
      && 7 in s.regs && s.regs[7].handler == Handler(1, true, false, 0) && !HasTask(s, 7)
  {
    var s := Initial({7}, 0, 1);
    actions := OneTask();
    RunNext(s, actions, PickTask);
    actions := actions + [PickTask];
    RunNext(s, actions, CheckDirty);
    actions := actions + [CheckDirty];
    RunNext(s, actions, RefuseUnsupported);
    actions := actions + [RefuseUnsupported];
  }

  /** A value that two tasks are to write. */
  lemma TwoTasks() returns (actions: seq<Action>)
    ensures var s := Run(Initial({7}, 0, 1), actions);
      && 7 in s.regs && s.now == 0 && s.maxWriteFailTime == 1 && s.thread == Waiting && s.tasks == [7, 7]
      && s.regs[7] == Register(Handler(1, true, false, 0), None, Pending(0, true), false)
  {
    var s := Initial({7}, 0, 1);
    actions := [];
    RunNext(s, actions, SetValue(7, 1, 0));
    actions := actions + [SetValue(7, 1, 0)];
    RunNext(s, actions, AddTask(7));
    actions := actions + [AddTask(7)];
    RunNext(s, actions, SetValue(7, 1, 0));
    actions := actions + [SetValue(7, 1, 0)];
    RunNext(s, actions, AddTask(7));
    actions := actions + [AddTask(7)];
  }

  /** The first of them fails. */
  lemma FirstFailure() returns (actions: seq<Action>)
    ensures var s := Run(Initial({7}, 0, 1), actions);
      && 7 in s.regs && s.now == 0 && s.maxWriteFailTime == 1
      && s.regs[7] == Register(Handler(1, true, true, 0), None, Pending(0, true), false)
      && s.thread == Picking([7])
  {
    var s := Initial({7}, 0, 1);
    actions := TwoTasks();
    RunNext(s, actions, TakeTasks);
    actions := actions + [TakeTasks];
    RunNext(s, actions, PickTask);
    actions := actions + [PickTask];
    RunNext(s, actions, CheckDirty);
    actions := actions + [CheckDirty];
    RunNext(s, actions, Defer(0));
    actions := actions + [Defer(0)];
  }

  /** So a value can be dropped in the very moment it is set, if an older one could not be written for long enough. */
  lemma NewValueIsDroppedAtOnce() returns (actions: seq<Action>)
    ensures var s, late := Run(Initial({7}, 0, 1), actions), 2 * TICKS_PER_SECOND;
      && 7 in s.regs && !s.regs[7].handler.dirty && s.regs[7].handler.valueToSet == 2
      && s.regs[7].received == None && s.regs[7].fate == TimedOut(late, false, late)
  {
    var s, late := Initial({7}, 0, 1), 2 * TICKS_PER_SECOND;
    actions := FirstFailure();
    RunNext(s, actions, SetValue(7, 2, late));
    actions := actions + [SetValue(7, 2, late)];
    RunNext(s, actions, PickTask);
    actions := actions + [PickTask];
    RunNext(s, actions, CheckDirty);
    actions := actions + [CheckDirty];
    RunNext(s, actions, Defer(late));
    actions := actions + [Defer(late)];
  }

  // ----- a pass of the port's thread -----

  lemma {:induction false} RunJoined(s: State, a: seq<Action>, b: seq<Action>)
    ensures Run(s, a + b) == Run(Run(s, a), b)
  {
    if b == [] {
      assert a + b == a;
    } else {
      assert (a + b)[..|a + b| - 1] == a + b[..|b| - 1];
      RunJoined(s, a, b[..|b| - 1]);
    }
  }

  lemma {:induction false} RunPair(s: State, a: Action, b: Action)
    requires IsEnabled(s, a) && IsEnabled(Step(s, a), b)
    ensures Run(s, [a, b]) == Step(Step(s, a), b)
  {
    assert Run(s, []) == s;
    RunNext(s, [], a);
    assert [] + [a] == [a] && [a] + [b] == [a, b];
    RunNext(s, [a], b);
  }

  predicate IsPickable(s: State) {
    s.thread.Picking? && s.thread.rest != [] && s.thread.rest[0] in s.regs
  }

  /** A task that is run without interruption while its device answers. */
  function Serving(s: State): seq<Action>
    requires IsPickable(s)
  {
    [PickTask, CheckDirty]
    + (if s.regs[s.thread.rest[0]].handler.dirty
       then [PrepareToAccess(true), Snapshot] + ([Write(Done), Settle(s.now)] + [Finish]) else [])
  }

  function WithDelivered(g: Register): Register {
    if !g.handler.dirty then g
    else g.(handler := g.handler.(dirty := false, writeFail := false),
            received := Some(g.handler.valueToSet), fate := Delivered)
  }

  function Served(s: State): State
    requires IsPickable(s)
  {
    var r := s.thread.rest[0];
    s.(thread := Picking(s.thread.rest[1..]), regs := s.regs[r := WithDelivered(s.regs[r])])
  }

  lemma {:induction false} PickedIsChecked(s: State)
    requires IsPickable(s)
    ensures var r := s.thread.rest[0];
      Run(s, [PickTask, CheckDirty]) == s.(thread :=
        if s.regs[r].handler.dirty then Running(r, Checked, s.thread.rest[1..]) else Picking(s.thread.rest[1..]))
  {
    RunPair(s, PickTask, CheckDirty);
  }

  lemma {:induction false} CheckedIsWritten(s: State)
    requires IsAt(s, Checked)
    ensures Run(s, [PrepareToAccess(true), Snapshot])
         == s.(thread := s.thread.(stage := Writing(s.regs[s.thread.reg].handler.valueToSet)))
  {
    RunPair(s, PrepareToAccess(true), Snapshot);
  }

  lemma {:induction false} WrittenIsSettled(s: State)
    requires IsRunning(s) && s.thread.stage == Writing(s.regs[s.thread.reg].handler.valueToSet)
    requires s.regs[s.thread.reg].handler.dirty
    ensures var r := s.thread.reg;
      Run(s, [Write(Done), Settle(s.now)])
      == s.(thread := s.thread.(stage := End), regs := s.regs[r := WithDelivered(s.regs[r])])
  {
    RunPair(s, Write(Done), Settle(s.now));
    var r := s.thread.reg;
    assert s.regs[r := Received(s.regs[r], s.thread.stage.written, Done)][r := WithDelivered(s.regs[r])]
        == s.regs[r := WithDelivered(s.regs[r])];
  }

  lemma {:induction false} SettledIsOver(s: State)
    requires IsAt(s, End) && !s.regs[s.thread.reg].handler.dirty
    ensures Run(s, [Finish]) == s.(thread := Picking(s.thread.rest))
  {
  }

  lemma {:induction false} ServingServes(s: State)
    requires IsPickable(s)
    ensures Run(s, Serving(s)) == Served(s)
  {
    var r, rest := s.thread.rest[0], s.thread.rest[1..];
    PickedIsChecked(s);
    if s.regs[r].handler.dirty {
      var s1 := s.(thread := Running(r, Checked, rest));
      CheckedIsWritten(s1);
      var s2 := s.(thread := Running(r, Writing(s.regs[r].handler.valueToSet), rest));
      WrittenIsSettled(s2);
      var s3 := s.(thread := Running(r, End, rest), regs := s.regs[r := WithDelivered(s.regs[r])]);
      SettledIsOver(s3);
      RunJoined(s2, [Write(Done), Settle(s.now)], [Finish]);
      RunJoined(s1, [PrepareToAccess(true), Snapshot], [Write(Done), Settle(s.now)] + [Finish]);
      RunJoined(s, [PickTask, CheckDirty],
                [PrepareToAccess(true), Snapshot] + ([Write(Done), Settle(s.now)] + [Finish]));
    } else {
      assert Serving(s) == [PickTask, CheckDirty];
      assert s.regs[r := s.regs[r]] == s.regs;
    }
  }

  predicate AreKnown(s: State) {
    s.thread.Picking? && forall i | 0 <= i < |s.thread.rest| :: s.thread.rest[i] in s.regs
  }

  /** All taken tasks, one after another. */
  function ServingAll(s: State): seq<Action>
    requires AreKnown(s)
    decreases if s.thread.Picking? then |s.thread.rest| else 0
  {
    if s.thread.rest == [] then [] else Serving(s) + ServingAll(Served(s))
  }

  /** If devices answer, one pass writes every waiting value that has a task in it, and touches no other register. */
  lemma {:induction false} PassDelivers(s: State, r: Reg)
    requires AreKnown(s) && r in s.regs
    ensures var t := Run(s, ServingAll(s));
      && t.thread == Picking([]) && r in t.regs
      && t.regs[r] == if r in s.thread.rest then WithDelivered(s.regs[r]) else s.regs[r]
    decreases |s.thread.rest|
  {
    if s.thread.rest != [] {
      ServingServes(s);
      RunJoined(s, Serving(s), ServingAll(Served(s)));
      PassDelivers(Served(s), r);
    }
  }
}
