/** When a device counts as disconnected: failed transfers are counted, and the time since the last good one. */
module DeviceConnection {
  datatype ConnectionState = Unknown | Connected | Disconnected

  /** Either setting is negative if a device is never to count as disconnected. */
  datatype Settings = Settings(timeout: int, maxFailCycles: int)
  {
    predicate IsTracking() {
      timeout >= 0 && maxFailCycles >= 0
    }
  }

  datatype Connection = Connection(state: ConnectionState, remaining: nat, lastSuccess: int)

  function AfterTransfer(s: Settings, c: Connection, ok: bool, now: int): Connection {
    if !s.IsTracking() then c
    else if ok then Connection(Connected, s.maxFailCycles, now)
    else
      var remaining: nat := if c.remaining > 0 then c.remaining - 1 else 0;
      var isLost := remaining == 0 && now - c.lastSuccess > s.timeout;
      c.(remaining := remaining, state := if isLost then Disconnected else c.state)
  }

  class SerialDevice {
    const settings: Settings
    var connection: Connection

    constructor (settings: Settings)
      ensures this.settings == settings && connection == Connection(Unknown, 0, 0)
    {
      this.settings := settings;
      connection := Connection(Unknown, 0, 0);
    }

    /** The device may have been given up by this transfer. */
    method SetTransferResult(ok: bool, now: int) returns (disconnects: bool)
      modifies this
      ensures connection == AfterTransfer(settings, old(connection), ok, now)
      ensures disconnects <==> old(connection).state != Disconnected && connection.state == Disconnected
    {
      disconnects := false;
      if settings.timeout < 0 || settings.maxFailCycles < 0 {
        return;
      }
      if ok {
        connection := Connection(Connected, settings.maxFailCycles, now);
      } else {
        if connection.remaining > 0 {
          connection := connection.(remaining := connection.remaining - 1);
        }
        if connection.remaining == 0 && connection.state != Disconnected
           && now - connection.lastSuccess > settings.timeout
        {
          connection := connection.(state := Disconnected);
          disconnects := true;
        }
      }
    }
  }

  /** Transfers that fail one after another. */
  function AfterFailures(s: Settings, c: Connection, times: seq<int>): Connection {
    if times == [] then c
    else AfterTransfer(s, AfterFailures(s, c, times[..|times| - 1]), false, times[|times| - 1])
  }

  /** The failure at an index is one too many, and comes too late after the last good transfer. */
  predicate IsTooMany(s: Settings, c: Connection, times: seq<int>, i: nat)
    requires i < |times|
  {
    i + 1 >= c.remaining && times[i] - c.lastSuccess > s.timeout
  }

  /** Failures disconnect a device exactly if this is tracked and one of them is one too many and comes too late. */
  lemma {:induction false} DisconnectedExactly(s: Settings, c: Connection, times: seq<int>)
    ensures var after := AfterFailures(s, c, times);
      && (after.state == Disconnected <==>
          c.state == Disconnected || (s.timeout >= 0 && s.maxFailCycles >= 0 && SomeIsTooMany(s, c, times)))
      && after.lastSuccess == c.lastSuccess
      && after.remaining
         == if s.timeout < 0 || s.maxFailCycles < 0 then c.remaining
            else if |times| < c.remaining then c.remaining - |times| else 0
  {
    if times != [] {
      var n := |times| - 1;
      DisconnectedExactly(s, c, times[..n]);
      TooManyEarlier(s, c, times);
    }
  }

  /**
   A good transfer connects a device; failures after it disconnect the device exactly if one of them is the last that
   is allowed or a later one, and comes later than the timeout after the good transfer.
   */
  lemma {:induction false} DisconnectedSince(s: Settings, c: Connection, good: int, times: seq<int>)
    requires s.timeout >= 0 && s.maxFailCycles >= 0
    ensures var after := AfterFailures(s, AfterTransfer(s, c, true, good), times);
      after.state == if exists i | 0 <= i < |times| :: i + 1 >= s.maxFailCycles && times[i] - good > s.timeout
                     then Disconnected else Connected
  {
    var connected := Connection(Connected, s.maxFailCycles, good);
    DisconnectedExactly(s, connected, times);
    NeverUnknown(s, connected, times);
    if SomeIsTooMany(s, connected, times) {
      var i: nat :| i < |times| && IsTooMany(s, connected, times, i);
      assert i + 1 >= s.maxFailCycles && times[i] - good > s.timeout;
    }
    if i :| 0 <= i < |times| && i + 1 >= s.maxFailCycles && times[i] - good > s.timeout {
      assert IsTooMany(s, connected, times, i);
    }
  }

  lemma {:induction false} NeverUnknown(s: Settings, c: Connection, times: seq<int>)
    requires c.state != Unknown
    ensures AfterFailures(s, c, times).state != Unknown
  {
    if times != [] {
      NeverUnknown(s, c, times[..|times| - 1]);
    }
  }

  ghost predicate SomeIsTooMany(s: Settings, c: Connection, times: seq<int>) {
    exists i: nat {:trigger IsTooMany(s, c, times, i)} | i < |times| :: IsTooMany(s, c, times, i)
  }

  lemma TooManyEarlier(s: Settings, c: Connection, times: seq<int>)
    requires times != []
    ensures var front := times[..|times| - 1];
      SomeIsTooMany(s, c, times) <==> IsTooMany(s, c, times, |times| - 1) || SomeIsTooMany(s, c, front)
  {
    var front := times[..|times| - 1];
    if SomeIsTooMany(s, c, times) {
      var i: nat :| i < |times| && IsTooMany(s, c, times, i);
      assert i < |front| ==> IsTooMany(s, c, front, i);
    }
    if SomeIsTooMany(s, c, front) {
      var i: nat :| i < |front| && IsTooMany(s, c, front, i);
      assert IsTooMany(s, c, times, i);
    }
  }
}
