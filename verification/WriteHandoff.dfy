/**
 Values handed over from threads that set them to the thread that owns the port. Every action is a step between two
 points where a lock is held, so that a run interleaves the threads in any way.
 */
module WriteHandoff {
  import opened Common
  import opened RegisterHandler

  type Reg = int

  /** What has become of the last value of a register. */
  datatype Fate =
    | NeverSet
    | Pending(setAt: int, clean: bool)  // clean: no write of the register was failing when the value was set
    | Delivered
    | RefusedByDevice
    | TimedOut(setAt: int, clean: bool, at: int)

  /**
   A register with the last value its device has received. It is orphaned if its value was left waiting without a task,
   because the device does not support the register or the text could not be converted.
   */
  datatype Register = Register(handler: Handler, received: Option<RawValue>, fate: Fate, orphaned: bool)

  /** Where a task is. */
  datatype Stage =
    | Start
    | Checked
    | Prepared
    | Writing(written: RawValue)
    | Answered(written: RawValue, outcome: Outcome)
    | End

  /** The thread of the port: in a loop that takes all queued tasks at once, or putting failed ones back. */
  datatype Thread =
    | Waiting
    | Picking(rest: seq<Reg>)
    | Running(reg: Reg, stage: Stage, rest: seq<Reg>)
    | Refilling

  datatype State = State(
    regs: map<Reg, Register>,
    tasks: seq<Reg>,
    adding: multiset<Reg>,
    retry: seq<Reg>,
    thread: Thread,
    now: int,
    maxWriteFailTime: nat
  )

  datatype Action =
    | SetValue(reg: Reg, value: RawValue, at: int)
    | SetBadText(reg: Reg)
    | AddTask(reg: Reg)
    | TakeTasks
    | PickTask
    | CheckDirty
    | RefuseUnsupported
    | Defer(at: int)
    | PrepareToAccess(ok: bool)
    | Snapshot
    | Write(outcome: Outcome)
    | Settle(at: int)
    | Finish
    | EndWait
    | Refill

  // ----- registers -----

  function Set(g: Register, v: RawValue, at: int): Register {
    g.(handler := WithValue(g.handler, v), fate := Pending(at, !g.handler.writeFail))
  }

  function SetBad(g: Register): Register {
    g.(handler := g.handler.(dirty := true), orphaned := true)
  }

  function TimeOut(fate: Fate, at: int): Fate {
    if fate.Pending? then TimedOut(fate.setAt, fate.clean, at) else fate
  }

  function Deferred(g: Register, at: int, max: nat): Register {
    var h := AfterDeferral(g.handler, at, max);
    g.(handler := h, fate := if h.dirty then g.fate else TimeOut(g.fate, at))
  }

  function Received(g: Register, written: RawValue, outcome: Outcome): Register {
    if outcome.Done? || outcome.received then g.(received := Some(written)) else g
  }

  function Settled(g: Register, written: RawValue, outcome: Outcome, at: int, max: nat): Register {
    var h := AfterWrite(g.handler, written, outcome, at, max);
    g.(handler := h, fate :=
      if h.dirty then g.fate
      else
        match outcome
        case Done => Delivered
        case Refused(_) => RefusedByDevice
        case NoAnswer(_) => TimeOut(g.fate, at))
  }

  // ----- steps -----

  predicate IsRunning(s: State) {
    s.thread.Running? && s.thread.reg in s.regs
  }

  predicate IsAt(s: State, stage: Stage) {
    IsRunning(s) && s.thread.stage == stage
  }

  function Time(a: Action): Option<int> {
    match a
    case SetValue(_, _, at) => Some(at)
    case Defer(at) => Some(at)
    case Settle(at) => Some(at)
    case _ => None
  }

  predicate IsEnabled(s: State, a: Action) {
    && (Time(a).Some? ==> s.now <= Time(a).value)
    && match a
       case SetValue(r, _, _) => r in s.regs
       case SetBadText(r) => r in s.regs
       case AddTask(r) => r in s.adding
       case TakeTasks => s.thread == Waiting && s.tasks != []
       case PickTask => s.thread.Picking?
       case CheckDirty => IsAt(s, Start)
       case RefuseUnsupported => IsAt(s, Checked)
       case Defer(_) => IsAt(s, Checked)
       case PrepareToAccess(_) => IsAt(s, Checked)
       case Snapshot => IsAt(s, Prepared)
       case Write(_) => IsRunning(s) && s.thread.stage.Writing?
       case Settle(_) => IsRunning(s) && s.thread.stage.Answered?
       case Finish => IsAt(s, End)
       case EndWait => s.thread == Waiting && s.tasks == []
       case Refill => s.thread == Refilling
  }

  function Update(s: State, r: Reg, g: Register): State {
    s.(regs := s.regs[r := g])
  }

  function GoTo(s: State, stage: Stage): State
    requires s.thread.Running?
  {
    s.(thread := s.thread.(stage := stage))
  }

  /** A task that is over is kept for a retry if a value is waiting. */
  function Over(s: State, retry: bool): State
    requires s.thread.Running?
  {
    s.(thread := Picking(s.thread.rest), retry := if retry then s.retry + [s.thread.reg] else s.retry)
  }

  function Step(s: State, a: Action): State
    requires IsEnabled(s, a)
  {
    match a
    case SetValue(r, v, at) =>
      Update(s, r, Set(s.regs[r], v, at)).(adding := s.adding + multiset{r}, now := at)
    case SetBadText(r) => Update(s, r, SetBad(s.regs[r]))
    case AddTask(r) => s.(tasks := s.tasks + [r], adding := s.adding - multiset{r})
    case TakeTasks => s.(thread := Picking(s.tasks), tasks := [])
    case PickTask =>
      if s.thread.rest == [] then s.(thread := Waiting)
      else s.(thread := Running(s.thread.rest[0], Start, s.thread.rest[1..]))
    case CheckDirty => if s.regs[s.thread.reg].handler.dirty then GoTo(s, Checked) else Over(s, false)
    case RefuseUnsupported =>
      var r := s.thread.reg;
      Over(Update(s, r, s.regs[r].(orphaned := true)), false)
    case Defer(at) =>
      var g := Deferred(s.regs[s.thread.reg], at, s.maxWriteFailTime);
      Over(Update(s, s.thread.reg, g), g.handler.dirty).(now := at)
    case PrepareToAccess(ok) => GoTo(s, if ok then Prepared else End)
    case Snapshot => GoTo(s, Writing(s.regs[s.thread.reg].handler.valueToSet))
    case Write(outcome) =>
      var r, written := s.thread.reg, s.thread.stage.written;
      GoTo(Update(s, r, Received(s.regs[r], written, outcome)), Answered(written, outcome))
    case Settle(at) =>
      var r, stage := s.thread.reg, s.thread.stage;
      GoTo(Update(s, r, Settled(s.regs[r], stage.written, stage.outcome, at, s.maxWriteFailTime)), End).(now := at)
    case Finish => Over(s, s.regs[s.thread.reg].handler.dirty)
    case EndWait => s.(thread := Refilling)
    case Refill =>
      if s.retry == [] then s.(thread := Waiting)
      else s.(tasks := s.tasks + [s.retry[0]], retry := s.retry[1..])
  }

  /** A run; actions that are not possible are left out. */
  function Run(s: State, actions: seq<Action>): State {
    if actions == [] then s
    else
      var before := Run(s, actions[..|actions| - 1]);
      var a := actions[|actions| - 1];
      if IsEnabled(before, a) then Step(before, a) else before
  }

  function Initial(regs: set<Reg>, now: int, maxWriteFailTime: nat): State {
    State(map r | r in regs :: Register(Handler(0, false, false, 0), None, NeverSet, false),
          [], multiset{}, [], Waiting, now, maxWriteFailTime)
  }

  // ----- what every step keeps -----

  /** Some task of a register is queued, about to be queued, in work or kept for a retry. */
  predicate HasTask(s: State, r: Reg) {
    r in s.tasks || r in s.adding || r in s.retry || IsInThread(s.thread, r)
  }

  predicate IsInThread(thread: Thread, r: Reg) {
    match thread
    case Picking(rest) => r in rest
    case Running(reg, _, rest) => reg == r || r in rest
    case _ => false
  }

  /** A value that was given up for want of an answer had been tried for longer than values are kept. */
  predicate TimesAreRight(g: Register, now: int, max: nat) {
    var h := g.handler;
    && (h.writeFail ==> h.firstTry <= now)
    && (g.fate.Pending? ==> g.fate.setAt <= now)
    && (g.fate.Pending? && g.fate.clean && h.writeFail ==> g.fate.setAt <= h.firstTry)
    && (g.fate.TimedOut? && g.fate.clean ==> IsTimedOut(g.fate.setAt, g.fate.at, max))
  }

  /** If no value waits, then none is left undecided; and a delivered value is the one that the device has. */
  predicate FateIsRight(g: Register) {
    && (!g.handler.dirty ==> !g.fate.Pending?)
    && (g.fate == Delivered ==> g.received == Some(g.handler.valueToSet))
  }

  /** A value being written is the one to set, unless another one has been set since. */
  predicate StageIsRight(g: Register, stage: Stage) {
    match stage
    case Checked => g.handler.dirty
    case Prepared => g.handler.dirty
    case Writing(written) => g.handler.dirty && (!g.fate.Pending? ==> written == g.handler.valueToSet)
    case Answered(written, outcome) =>
      && g.handler.dirty
      && (!g.fate.Pending? ==> written == g.handler.valueToSet)
      && (outcome == Done ==> g.received == Some(written))
    case _ => true
  }

  predicate IsRight(s: State, r: Reg)
    requires r in s.regs
  {
    var g := s.regs[r];
    && (g.handler.dirty && !HasTask(s, r) ==> g.orphaned)
    && FateIsRight(g)
    && TimesAreRight(g, s.now, s.maxWriteFailTime)
    && (s.thread.Running? && s.thread.reg == r ==> StageIsRight(g, s.thread.stage))
  }
}
