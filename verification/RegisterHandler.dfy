/** A value that waits to be written: set by one thread, written to the device by another one. */
module RegisterHandler {
  import opened Common

  /** A raw value of a register. */
  type RawValue = int

  const TICKS_PER_SECOND := 1_000_000_000

  datatype Handler = Handler(valueToSet: RawValue, dirty: bool, writeFail: bool, firstTry: int)

  /** What comes of a write; a value can have been received although the write counts as failed. */
  datatype Outcome = Done | Refused(received: bool) | NoAnswer(received: bool)

  /** Whole seconds have gone by since the first failed write, and more of them than a value is kept for. */
  predicate IsTimedOut(firstTry: int, now: int, maxWriteFailTime: nat) {
    (now - firstTry) / TICKS_PER_SECOND > maxWriteFailTime
  }

  function WithValue(h: Handler, v: RawValue): Handler {
    h.(valueToSet := v, dirty := true)
  }

  /** A written or refused value is done with, unless it is not the one to set any more. */
  function AfterAnswer(h: Handler, written: RawValue): Handler {
    h.(dirty := written != h.valueToSet, writeFail := false)
  }

  function FirstTry(h: Handler, now: int): int {
    if h.writeFail then h.firstTry else now
  }

  function AfterNoAnswer(h: Handler, written: RawValue, now: int, maxWriteFailTime: nat): Handler {
    var first := FirstTry(h, now);
    if IsTimedOut(first, now, maxWriteFailTime) then
      h.(dirty := written != h.valueToSet, writeFail := false, firstTry := first)
    else h.(writeFail := true, firstTry := first)
  }

  function AfterWrite(h: Handler, written: RawValue, outcome: Outcome, now: int, maxWriteFailTime: nat): Handler {
    if outcome.NoAnswer? then AfterNoAnswer(h, written, now, maxWriteFailTime) else AfterAnswer(h, written)
  }

  /** A value that could not be written at all is kept for the same time, then dropped whatever it is. */
  function AfterDeferral(h: Handler, now: int, maxWriteFailTime: nat): Handler {
    if !h.dirty then h
    else
      var first := FirstTry(h, now);
      if IsTimedOut(first, now, maxWriteFailTime) then h.(dirty := false, writeFail := false, firstTry := first)
      else h.(writeFail := true, firstTry := first)
  }

  /** A failed write was followed by others for longer than a value is kept, counted in whole seconds. */
  predicate IsLate(h: Handler, now: int, maxWriteFailTime: nat) {
    h.writeFail && now - h.firstTry >= 1_000_000_000 * (maxWriteFailTime + 1)
  }

  /** What is kept of a value, and for how long, when the device does not answer or cannot be asked. */
  lemma KeptExactly(h: Handler, written: RawValue, now: int, maxWriteFailTime: nat)
    ensures var after, late := AfterNoAnswer(h, written, now, maxWriteFailTime), IsLate(h, now, maxWriteFailTime);
      after == Handler(h.valueToSet, if late then written != h.valueToSet else h.dirty, !late,
                       if h.writeFail then h.firstTry else now)
    ensures var after, late := AfterDeferral(h, now, maxWriteFailTime), IsLate(h, now, maxWriteFailTime);
      after == if h.dirty then Handler(h.valueToSet, !late, !late, if h.writeFail then h.firstTry else now) else h
  {
  }

  class RegisterHandler {
    var valueToSet: RawValue
    var dirty: bool
    var writeFail: bool
    var writeFirstTryTime: int
    const maxWriteFailTime: nat

    function State(): Handler
      reads this
    {
      Handler(valueToSet, dirty, writeFail, writeFirstTryTime)
    }

    constructor (maxWriteFailTime: nat)
      ensures State() == Handler(0, false, false, 0) && this.maxWriteFailTime == maxWriteFailTime
    {
      valueToSet, dirty, writeFail, writeFirstTryTime := 0, false, false, 0;
      this.maxWriteFailTime := maxWriteFailTime;
    }

    /** A text that cannot be converted fails after the value has been marked as waiting. */
    method SetTextValue(converted: Option<RawValue>) returns (ok: bool)
      modifies this
      ensures ok <==> converted.Some?
      ensures State() == if ok then WithValue(old(State()), converted.value) else old(State()).(dirty := true)
    {
      dirty := true;
      if converted.None? {
        return false;
      }
      valueToSet := converted.value;
      ok := true;
    }

    method HandleWriteErrorNoRetry(tempValue: RawValue)
      modifies this
      ensures State() == AfterAnswer(old(State()), tempValue)
    {
      dirty := tempValue != valueToSet;
      writeFail := false;
    }

    method HandleWriteErrorRetryWrite(tempValue: RawValue, now: int)
      modifies this
      ensures State() == AfterNoAnswer(old(State()), tempValue, now, maxWriteFailTime)
    {
      if !writeFail {
        writeFirstTryTime := now;
      }
      writeFail := true;
      if (now - writeFirstTryTime) / TICKS_PER_SECOND > maxWriteFailTime {
        dirty := tempValue != valueToSet;
        writeFail := false;
      }
    }

    /**
     Writes the value that is to be set at the start, while others are set by another thread. Once the device has
     answered, a value waits exactly if the last one set differs from the written one.
     */
    method Flush(outcome: Outcome, during: seq<RawValue>, now: int) returns (tempValue: RawValue)
      requires dirty
      modifies this
      ensures tempValue == old(valueToSet)
      ensures valueToSet == (if during == [] then tempValue else during[|during| - 1])
      ensures State() == AfterWrite(old(State()).(valueToSet := valueToSet), tempValue, outcome, now, maxWriteFailTime)
      ensures !outcome.NoAnswer? ==> (dirty <==> valueToSet != tempValue) && !writeFail
    {
      tempValue := valueToSet;
      for i := 0 to |during|
        invariant State() == old(State()).(valueToSet := if i == 0 then tempValue else during[i - 1])
      {
        var _ := SetTextValue(Some(during[i]));
      }
      match outcome {
        case Done =>
          dirty := tempValue != valueToSet;
          writeFail := false;
        case Refused(_) => HandleWriteErrorNoRetry(tempValue);
        case NoAnswer(_) => HandleWriteErrorRetryWrite(tempValue, now);
      }
    }

    method NeedRetryAfterWriteFail(now: int) returns (retry: bool)
      modifies this
      ensures State() == AfterDeferral(old(State()), now, maxWriteFailTime)
      ensures retry <==> dirty
    {
      if !dirty {
        return false;
      }
      if !writeFail {
        writeFirstTryTime := now;
        writeFail := true;
      }
      if (now - writeFirstTryTime) / TICKS_PER_SECOND > maxWriteFailTime {
        dirty := false;
        writeFail := false;
        return false;
      }
      retry := true;
    }
  }
}
