/** Tasks that write waiting values, and the loop that runs all queued tasks and keeps the failed ones. */
module WriteTasks {
  import opened Common
  import opened RegisterHandler

  /** What a task meets when it is run; values can be set by another thread while it writes. */
  datatype Surroundings = Surroundings(
    portIsOpen: bool,
    isSupported: bool,
    isDisconnected: bool,
    isPrepared: bool,
    outcome: Outcome,
    during: seq<RawValue>,
    now: int
  )

  predicate CanWrite(e: Surroundings) {
    e.portIsOpen && e.isSupported && !e.isDisconnected
  }

  /** The state of a handler after its task; a task without a waiting value does nothing. */
  function AfterTask(h: Handler, e: Surroundings, max: nat): Handler {
    if !h.dirty then h
    else if CanWrite(e) then
      if !e.isPrepared then h
      else
        var v := if e.during == [] then h.valueToSet else e.during[|e.during| - 1];
        AfterWrite(h.(valueToSet := v), h.valueToSet, e.outcome, e.now, max)
    else if e.portIsOpen && !e.isSupported then h
    else AfterDeferral(h, e.now, max)
  }

  /** A task whose value still waits is to be retried, unless its register is not supported. */
  predicate AsksRetry(h: Handler, e: Surroundings, max: nat) {
    AfterTask(h, e, max).dirty && (e.portIsOpen ==> e.isSupported)
  }

  /** The value that a task sends to the device, if it does so. */
  function Sent(h: Handler, e: Surroundings): Option<RawValue> {
    if h.dirty && CanWrite(e) && e.isPrepared then Some(h.valueToSet) else None
  }

  /** Only the value of an unsupported register is left waiting by a task that is not to be retried. */
  method RunTask(handler: RegisterHandler, e: Surroundings) returns (retry: bool, sent: Option<RawValue>)
    modifies handler
    ensures handler.State() == AfterTask(old(handler.State()), e, handler.maxWriteFailTime)
    ensures retry <==> AsksRetry(old(handler.State()), e, handler.maxWriteFailTime)
    ensures !retry && handler.dirty <==> old(handler.dirty) && e.portIsOpen && !e.isSupported
    ensures sent == Sent(old(handler.State()), e)
    ensures sent.Some? ==> e.portIsOpen && e.isSupported && !e.isDisconnected && e.isPrepared
  {
    sent := None;
    if !handler.dirty {
      return false, None;
    }
    if !e.portIsOpen || !e.isSupported || e.isDisconnected {
      if !e.portIsOpen || e.isSupported {
        retry := handler.NeedRetryAfterWriteFail(e.now);
      } else {
        retry := false;
      }
      return;
    }
    if e.isPrepared {
      var written := handler.Flush(e.outcome, e.during, e.now);
      sent := Some(written);
    }
    retry := handler.dirty;
  }

  // ----- tasks one after another -----

  /** What each task meets, by the number of the tasks that were run before it. */
  type Meetings = (nat, RegisterHandler) -> Surroundings

  type States = map<RegisterHandler, Handler>

  ghost function StatesOf(handlers: set<RegisterHandler>): States
    reads handlers
  {
    map h | h in handlers :: h.State()
  }

  /** What has come of tasks: the states of handlers, the tasks to be retried, and the values sent to devices. */
  datatype Flushed = Flushed(states: States, retries: seq<RegisterHandler>, sent: seq<(RegisterHandler, RawValue)>)

  function RunOne(done: Flushed, h: RegisterHandler, e: Surroundings): Flushed {
    if h !in done.states then done
    else
      var state := done.states[h];
      Flushed(
        done.states[h := AfterTask(state, e, h.maxWriteFailTime)],
        done.retries + (if AsksRetry(state, e, h.maxWriteFailTime) then [h] else []),
        done.sent + (if Sent(state, e).Some? then [(h, Sent(state, e).value)] else []))
  }

  /** Tasks are run in order, each of them once. */
  function RunAll(done: Flushed, runs: seq<RegisterHandler>, meetings: Meetings, from: nat): Flushed {
    if runs == [] then done
    else
      var n := |runs| - 1;
      RunOne(RunAll(done, runs[..n], meetings, from), runs[n], meetings(from + n, runs[n]))
  }

  lemma {:induction false} RunInTwo(
      done: Flushed, a: seq<RegisterHandler>, b: seq<RegisterHandler>, meetings: Meetings, from: nat)
    ensures RunAll(done, a + b, meetings, from) == RunAll(RunAll(done, a, meetings, from), b, meetings, from + |a|)
  {
    if b == [] {
      assert a + b == a;
    } else {
      var n := |b| - 1;
      assert (a + b)[..|a + b| - 1] == a + b[..n];
      RunInTwo(done, a, b[..n], meetings, from);
    }
  }

  lemma {:induction false} OneMoreRun(done: Flushed, runs: seq<RegisterHandler>, i: nat, meetings: Meetings, from: nat)
    requires i < |runs|
    ensures RunAll(done, runs[..i + 1], meetings, from)
         == RunOne(RunAll(done, runs[..i], meetings, from), runs[i], meetings(from + i, runs[i]))
  {
    assert runs[..i + 1][..i] == runs[..i];
  }

  ghost predicate AreAmong(tasks: seq<RegisterHandler>, handlers: set<RegisterHandler>) {
    forall h | h in tasks :: h in handlers
  }

  class SerialClient {
    var tasks: seq<RegisterHandler>

    constructor ()
      ensures tasks == []
    {
      tasks := [];
    }

    method AddTask(task: RegisterHandler)
      modifies this
      ensures tasks == old(tasks) + [task]
    {
      tasks := tasks + [task];
    }

    method SetTextValue(handler: RegisterHandler, converted: Option<RawValue>) returns (ok: bool)
      modifies this, handler
      ensures ok <==> converted.Some?
      ensures handler.State()
           == if ok then WithValue(old(handler.State()), converted.value) else old(handler.State()).(dirty := true)
      ensures tasks == if ok then old(tasks) + [handler] else old(tasks)
    {
      ok := handler.SetTextValue(converted);
      if ok {
        AddTask(handler);
      }
    }

    /** Runs a task, which is put aside if it is to be retried. */
    static method RunNext(h: RegisterHandler, retry0: seq<RegisterHandler>, e: Surroundings,
                          ghost handlers: set<RegisterHandler>, ghost done: Flushed)
      returns (retry: seq<RegisterHandler>, ghost after: Flushed)
      requires h in handlers && done.states == StatesOf(handlers) && done.retries == retry0
      modifies handlers
      ensures after == RunOne(done, h, e) && after.states == StatesOf(handlers) && after.retries == retry
    {
      var failed, sent := RunTask(h, e);
      assert StatesOf(handlers) == done.states[h := h.State()];
      retry := if failed then retry0 + [h] else retry0;
      after := RunOne(done, h, e);
      assert sent == Sent(done.states[h], e);
    }

    /** Runs taken tasks in order. */
    static method RunTasks(taken: seq<RegisterHandler>, retry0: seq<RegisterHandler>, meetings: Meetings, ran0: nat,
                           ghost handlers: set<RegisterHandler>, ghost done: Flushed)
      returns (retry: seq<RegisterHandler>, ran: nat, ghost after: Flushed)
      requires AreAmong(taken, handlers) && done.states == StatesOf(handlers) && done.retries == retry0
      modifies handlers
      ensures ran == ran0 + |taken|
      ensures after == RunAll(done, taken, meetings, ran0)
      ensures after.states == StatesOf(handlers) && after.retries == retry
    {
      retry, ran, after := retry0, ran0, done;
      for i := 0 to |taken|
        invariant ran == ran0 + i && after == RunAll(done, taken[..i], meetings, ran0)
        invariant after.states == StatesOf(handlers) && after.retries == retry
      {
        OneMoreRun(done, taken, i, meetings, ran0);
        retry, after := RunNext(taken[i], retry, meetings(ran, taken[i]), handlers, after);
        ran := ran + 1;
      }
      assert taken[..|taken|] == taken;
    }

    method AddTasks(list: seq<RegisterHandler>)
      modifies this
      ensures tasks == old(tasks) + list
    {
      for i := 0 to |list|
        invariant tasks == old(tasks) + list[..i]
      {
        AddTask(list[i]);
      }
    }

    /** Runs all queued tasks. */
    method RunQueued(retry0: seq<RegisterHandler>, meetings: Meetings, ran0: nat, ghost handlers: set<RegisterHandler>,
                     ghost start: Flushed, ghost runs0: seq<RegisterHandler>, ghost done0: Flushed)
      returns (retry: seq<RegisterHandler>, ran: nat, ghost runs: seq<RegisterHandler>, ghost done: Flushed)
      requires AreAmong(tasks, handlers) && ran0 == |runs0| && done0 == RunAll(start, runs0, meetings, 0)
      requires done0.states == StatesOf(handlers) && done0.retries == retry0
      modifies this, handlers
      ensures tasks == [] && runs == runs0 + old(tasks) && ran == |runs| && done == RunAll(start, runs, meetings, 0)
      ensures done.states == StatesOf(handlers) && done.retries == retry
    {
      var taken := tasks;
      tasks := [];
      RunInTwo(start, runs0, taken, meetings, 0);
      retry, ran, done := RunTasks(taken, retry0, meetings, ran0, handlers, done0);
      runs := runs0 + taken;
    }

    /**
     Runs what is queued, and again what other threads queue meanwhile, until nothing is left; then the failed tasks are
     queued again.  Every task is run once, in the order in which they were queued.
     */
    method WaitForPollAndFlush(arrivals: seq<seq<RegisterHandler>>, meetings: Meetings,
                               ghost handlers: set<RegisterHandler>)
      returns (ghost runs: seq<RegisterHandler>, ghost done: Flushed)
      requires AreAmong(tasks, handlers) && forall i | 0 <= i < |arrivals| :: AreAmong(arrivals[i], handlers)
      modifies this, handlers
      ensures runs == old(tasks) + Flattened(arrivals)
      ensures done == RunAll(Flushed(old(StatesOf(handlers)), [], []), runs, meetings, 0)
      ensures StatesOf(handlers) == done.states && tasks == done.retries
    {
      ghost var start := Flushed(StatesOf(handlers), [], []);
      var retryTasks: seq<RegisterHandler> := [];
      var arrived, ran := 0, 0;
      runs, done := [], start;
      assert arrivals[0..] == arrivals;
      while tasks != [] || arrived < |arrivals|
        invariant 0 <= arrived <= |arrivals| && ran == |runs| && AreAmong(tasks, handlers)
        invariant AreStillToRun(runs, tasks, arrivals, arrived, old(tasks) + Flattened(arrivals))
        invariant done == RunAll(start, runs, meetings, 0)
        invariant done.states == StatesOf(handlers) && done.retries == retryTasks
        decreases |arrivals| - arrived, |tasks|
      {
        NextToRun(runs, tasks, arrivals, arrived, old(tasks) + Flattened(arrivals));
        retryTasks, ran, runs, done := RunQueued(retryTasks, meetings, ran, handlers, start, runs, done);
        if arrived < |arrivals| {
          tasks := arrivals[arrived];
          arrived := arrived + 1;
        }
      }
      AddTasks(retryTasks);
    }
  }

  function Flattened(arrivals: seq<seq<RegisterHandler>>): seq<RegisterHandler> {
    if arrivals == [] then [] else arrivals[0] + Flattened(arrivals[1..])
  }

  /** All tasks: those that were run, those that are queued, and those that are still to arrive. */
  ghost predicate AreStillToRun(
      runs: seq<RegisterHandler>, tasks: seq<RegisterHandler>, arrivals: seq<seq<RegisterHandler>>, arrived: nat,
      all: seq<RegisterHandler>)
  {
    arrived <= |arrivals| && all == runs + tasks + Flattened(arrivals[arrived..])
  }

  /** When queued tasks are run, the next ones arrive, if there are any. */
  lemma NextToRun(
      runs: seq<RegisterHandler>, tasks: seq<RegisterHandler>, arrivals: seq<seq<RegisterHandler>>, arrived: nat,
      all: seq<RegisterHandler>)
    requires AreStillToRun(runs, tasks, arrivals, arrived, all)
    ensures arrived == |arrivals| ==> AreStillToRun(runs + tasks, [], arrivals, arrived, all)
    ensures arrived < |arrivals| ==> AreStillToRun(runs + tasks, arrivals[arrived], arrivals, arrived + 1, all)
  {
    if arrived < |arrivals| {
      assert arrivals[arrived..][1..] == arrivals[arrived + 1..];
      var rest := Flattened(arrivals[arrived + 1..]);
      assert runs + tasks + (arrivals[arrived] + rest) == runs + tasks + arrivals[arrived] + rest;
    }
  }
}
