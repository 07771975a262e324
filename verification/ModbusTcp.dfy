/**
 Modbus TCP: requests and responses in a byte stream, matched by transaction ids (section 3.1.3 of the MODBUS Messaging
 on TCP/IP Implementation Guide V1.0b).
 */
module ModbusTcp {
  import opened Common

  const MBAP_SIZE := 7
  const ID_COUNT := 0x1_0000

  type Id = x: int | 0 <= x < ID_COUNT

  /** A request or a response. */
  datatype Frame = Frame(id: Id, unit: Octet, pdu: seq<Octet>)

  /** The length field counts the unit identifier too. */
  predicate IsSendable(f: Frame) {
    |f.pdu| + 1 < ID_COUNT
  }

  // ----- frames as bytes -----

  function Mbap(id: Id, pduSize: nat, unit: Octet): (r: seq<Octet>)
    ensures |r| == MBAP_SIZE
  {
    [id / 0x100, id % 0x100, 0, 0, (pduSize + 1) / 0x100 % 0x100, (pduSize + 1) % 0x100, unit]
  }

  /** A 16-bit number, high byte first. */
  function WordOf(high: int, low: int): int {
    high * 0x100 + low
  }

  function LengthFromMbap(buf: seq<Octet>): nat
    requires |buf| >= MBAP_SIZE
  {
    WordOf(buf[4], buf[5])
  }

  function Encoded(f: Frame): (r: seq<Octet>)
    ensures |r| == MBAP_SIZE + |f.pdu|
  {
    Mbap(f.id, |f.pdu|, f.unit) + f.pdu
  }

  function EncodedAll(fs: seq<Frame>): seq<Octet> {
    if fs == [] then [] else Encoded(fs[0]) + EncodedAll(fs[1..])
  }

  /** A request that goes out. */
  method MakeRequest(requestPdu: seq<Octet>, slaveId: Octet, transactionId: Id) returns (request: seq<Octet>)
    ensures request == Encoded(Frame(transactionId, slaveId, requestPdu))
  {
    var a := new Octet[MBAP_SIZE + |requestPdu|](_ => 0);
    for i := 0 to |requestPdu|
      invariant a[MBAP_SIZE..MBAP_SIZE + i] == requestPdu[..i]
    {
      a[MBAP_SIZE + i] := requestPdu[i];
    }
    assert a[MBAP_SIZE..] == a[MBAP_SIZE..MBAP_SIZE + |requestPdu|];
    SetMbap(a, transactionId, |requestPdu|, slaveId);
    request := a[..];
    assert request == a[..MBAP_SIZE] + a[MBAP_SIZE..];
  }

  method SetMbap(req: array<Octet>, transactionId: Id, pduSize: nat, slaveId: Octet)
    requires req.Length >= MBAP_SIZE
    modifies req
    ensures req[..MBAP_SIZE] == Mbap(transactionId, pduSize, slaveId)
    ensures req[MBAP_SIZE..] == old(req[MBAP_SIZE..])
  {
    req[0] := transactionId / 0x100;
    req[1] := transactionId % 0x100;
    req[2] := 0;
    req[3] := 0;
    var length := pduSize + 1;
    req[4] := length / 0x100 % 0x100;
    req[5] := length % 0x100;
    req[6] := slaveId;
  }

  // ----- reading -----

  datatype Outcome =
    | Received(frame: Frame)
    | UnitMismatch(frame: Frame)
    | Timeout
    | CutHeader
    | ZeroLength
    | NoBody
    | CutBody

  /** How many bytes come in time, for a header and for what follows it. */
  datatype Wait = Wait(header: nat, body: nat)

  datatype Reader = Reader(id: Id, unit: Octet, matchUnit: bool)

  function Taken(incoming: seq<Octet>, size: nat, arrived: nat): (n: nat)
    ensures n <= |incoming| && n <= size && n <= arrived
  {
    Min(size, Min(arrived, |incoming|))
  }

  datatype Progress = Ended(outcome: Outcome) | Skipped

  /** One frame is read; with another id it is skipped. */
  function ReadOne(incoming: seq<Octet>, r: Reader, wait: Wait): (Progress, seq<Octet>) {
    var n := Taken(incoming, MBAP_SIZE, wait.header);
    if n == 0 then (Ended(Timeout), incoming)
    else if n < MBAP_SIZE then (Ended(CutHeader), incoming[n..])
    else
      var header, rest := incoming[..n], incoming[n..];
      var length := LengthFromMbap(header);
      if length == 0 then (Ended(ZeroLength), rest)
      else
        var m := Taken(rest, length - 1, wait.body);
        if m == 0 && length > 1 then (Ended(NoBody), rest)
        else if m != length - 1 then (Ended(CutBody), rest[m..])
        else if WordOf(header[0], header[1]) != r.id then (Skipped, rest[m..])
        else
          var frame := Frame(r.id, header[6], rest[..m]);
          (Ended(if r.matchUnit && header[6] != r.unit then UnitMismatch(frame) else Received(frame)), rest[m..])
  }

  /** Frames are read until one has the id that is waited for, or the time is over. */
  function Reading(incoming: seq<Octet>, r: Reader, waits: seq<Wait>): (Outcome, seq<Octet>)
    decreases |waits|
  {
    if waits == [] then (Timeout, incoming)
    else
      match ReadOne(incoming, r, waits[0])
      case (Ended(o), rest) => (o, rest)
      case (Skipped, rest) => Reading(rest, r, waits[1..])
  }

  class Port {
    var incoming: seq<Octet>
    var written: seq<Octet>

    method WriteBytes(bytes: seq<Octet>)
      modifies this`written
      ensures written == old(written) + bytes
    {
      written := written + bytes;
    }

    /** Up to a number of bytes, as far as they come in time. */
    method ReadFrame(size: nat, arrived: nat) returns (bytes: seq<Octet>)
      modifies this`incoming
      ensures var n := Taken(old(incoming), size, arrived);
        bytes == old(incoming)[..n] && incoming == old(incoming)[n..]
    {
      var n := Taken(incoming, size, arrived);
      bytes, incoming := incoming[..n], incoming[n..];
    }
  }

  method ReadFrame(port: Port, r: Reader, waits: seq<Wait>) returns (outcome: Outcome)
    modifies port`incoming
    ensures (outcome, port.incoming) == Reading(old(port.incoming), r, waits)
  {
    var i := 0;
    while i < |waits|
      invariant i <= |waits|
      invariant Reading(old(port.incoming), r, waits) == Reading(port.incoming, r, waits[i..])
    {
      assert waits[i..][0] == waits[i] && waits[i..][1..] == waits[i + 1..];
      var response := port.ReadFrame(MBAP_SIZE, waits[i].header);
      if response == [] {
        return Timeout;
      }
      if |response| < MBAP_SIZE {
        return CutHeader;
      }
      var len := LengthFromMbap(response);
      if len == 0 {
        return ZeroLength;
      }
      len := len - 1;
      var body := port.ReadFrame(len, waits[i].body);
      if body == [] && len > 0 {
        return NoBody;
      }
      if |body| != len {
        return CutBody;
      }
      if r.id / 0x100 == response[0] && r.id % 0x100 == response[1] {
        var frame := Frame(r.id, response[6], body);
        if r.matchUnit && r.unit != response[6] {
          return UnitMismatch(frame);
        }
        return Received(frame);
      }
      i := i + 1;
    }
    outcome := Timeout;
  }

  // ----- transaction ids -----

  function NextId(last: Option<Id>): Id {
    match last
    case None => 1
    case Some(id) => (id + 1) % ID_COUNT
  }

  /** The id of the n-th request since a reset. */
  function IdOf(n: nat): Id {
    n % ID_COUNT
  }

  function LastId(n: nat): Option<Id> {
    if n == 0 then None else Some(IdOf(n))
  }

  /** Ids of several ports, which are told apart by their descriptions. */
  class TransactionIds {
    var ids: map<string, Id>

    constructor ()
      ensures ids == map[]
    {
      ids := map[];
    }

    function Last(port: string): Option<Id>
      reads this
    {
      if port in ids then Some(ids[port]) else None
    }

    method GetTransactionId(port: string) returns (id: Id)
      modifies this
      ensures id == NextId(old(Last(port))) && Last(port) == Some(id)
      ensures forall p | p != port :: Last(p) == old(Last(p))
    {
      if port in ids {
        id := (ids[port] + 1) % ID_COUNT;
      } else {
        id := 1;
      }
      ids := ids[port := id];
    }

    method ResetTransactionId(port: string)
      modifies this
      ensures Last(port) == None
      ensures forall p | p != port :: Last(p) == old(Last(p))
    {
      ids := ids - {port};
    }

    /** A request goes out with the next id, and its response is read. */
    method Transaction(port: Port, description: string, slaveId: Octet, requestPdu: seq<Octet>, matchSlaveId: bool,
                       waits: seq<Wait>)
      returns (outcome: Outcome)
      modifies this, port
      ensures var id := NextId(old(Last(description)));
        && Last(description) == Some(id)
        && (forall p | p != description :: Last(p) == old(Last(p)))
        && port.written == old(port.written) + Encoded(Frame(id, slaveId, requestPdu))
        && (outcome, port.incoming) == Reading(old(port.incoming), Reader(id, slaveId, matchSlaveId), waits)
    {
      var transactionId := GetTransactionId(description);
      var request := MakeRequest(requestPdu, slaveId, transactionId);
      port.WriteBytes(request);
      outcome := ReadFrame(port, Reader(transactionId, slaveId, matchSlaveId), waits);
    }
  }
}
