/**
 CRC16 of Modbus RTU frames: the table-driven calculation, its bitwise twin in the
 Pulsar driver, and what the check of a received frame detects.
 */
module Crc16 {
  import opened Common
  import opened Crc16Table
  import opened Iteration

  /** The register after one more byte. */
  function ByteStep(w: Word, b: Byte): Word {
    Shift(w ^ (b as Word), 8)
  }

  /** The register after the bytes of `data`, starting from `w`. */
  function Run(w: Word, data: seq<Byte>): Word {
    Fold(ByteStep, w, data)
  }

  function SwapBytes(w: Word): Word {
    (w << 8) | (w >> 8)
  }

  // ----- the two calculations -----

  /** `len` is a 16-bit parameter in the source. */
  method CalculateCRC16(buffer: seq<Byte>, len: nat) returns (crc: Word)
    requires len < 0x1_0000 && len <= |buffer|
    ensures crc == SwapBytes(Run(0xFFFF, buffer[..len]))
  {
    var crch: Byte, crcl: Byte := 0xff, 0xff;
    var pos := 0;
    ghost var w: Word := 0xFFFF;
    assert Pack(crch, crcl) == w;
    while pos < len
      invariant pos <= len
      invariant w == Run(0xFFFF, buffer[..pos])
      invariant Pack(crch, crcl) == w
    {
      var i := crch ^ buffer[pos];
      TableStep(crch, crcl, buffer[pos], i);
      ghost var next := ByteStep(w, buffer[pos]);
      RunNext(buffer, pos, w, next);
      w := next;
      pos := pos + 1;
      crch := crcl ^ CrcHi(i);
      crcl := CrcLo(i);
    }
    SwapIsRepack(crch, crcl);
    crc := ((crch as Word) << 8) | (crcl as Word);
  }

  /** The byte counter is 16 bits wide, so a longer buffer is covered only up to its size modulo 65536. */
  method PulsarCalculateCRC16(buffer: seq<Byte>) returns (w: Word)
    ensures w == Run(0xFFFF, buffer[..|buffer| % 0x1_0000])
  {
    var byteCnt := |buffer| % 0x1_0000;
    ghost var total := byteCnt;
    var ptrByte := 0;
    w := 0xFFFF;
    while byteCnt > 0
      invariant 0 <= ptrByte <= total <= |buffer| && byteCnt == total - ptrByte
      invariant w == Run(0xFFFF, buffer[..ptrByte])
    {
      ghost var before := w;
      w := w ^ (buffer[ptrByte] as Word);
      ghost var start := w;
      for shiftCnt := 0 to 8
        invariant w == Shift(start, shiftCnt)
      {
        ghost var previous := w;
        var f := w & 0x01;
        w := w >> 1;
        if f != 0 {
          w := w ^ 0xa001;
        }
        IsShiftOnce(previous, w);
        ShiftNext(start, shiftCnt, previous, w);
      }
      RunNext(buffer, ptrByte, before, w);
      ptrByte := ptrByte + 1;
      byteCnt := byteCnt - 1;
    }
  }

  lemma IsShiftOnce(w: Word, next: Word)
    requires next == if w & 0x01 != 0 then (w >> 1) ^ 0xa001 else w >> 1
    ensures next == ShiftOnce(w)
  {
  }

  lemma ShiftNext(start: Word, n: nat, w: Word, next: Word)
    requires w == Shift(start, n) && next == ShiftOnce(w)
    ensures next == Shift(start, n + 1)
  {
  }

  lemma SwapIsRepack(crch: Byte, crcl: Byte)
    ensures ((crch as Word) << 8) | (crcl as Word) == SwapBytes(Pack(crch, crcl))
  {
  }

  function Xor(a: Word, b: Word): Word {
    a ^ b
  }

  lemma ShiftOnceParts(a: Word, b: Word)
    ensures (a ^ b) >> 1 == (a >> 1) ^ (b >> 1)
    ensures (a ^ b) & 1 == (a & 1) ^ (b & 1)
    ensures a & 1 == 0 || a & 1 == 1
    ensures b & 1 == 0 || b & 1 == 1
  {
  }

  lemma XorMoves(a: Word, b: Word, p: Word)
    ensures (a ^ p) ^ (b ^ p) == a ^ b
    ensures (a ^ p) ^ b == (a ^ b) ^ p == a ^ (b ^ p)
  {
  }

  lemma ShiftOnceOfXor(a: Word, b: Word)
    ensures ShiftOnce(Xor(a, b)) == Xor(ShiftOnce(a), ShiftOnce(b))
  {
    ShiftOnceParts(a, b);
    XorMoves(a >> 1, b >> 1, 0xA001);
  }

  lemma ShiftOnceIsLinear()
    ensures IsLinear(ShiftOnce, Xor)
  {
    forall a, b ensures ShiftOnce(Xor(a, b)) == Xor(ShiftOnce(a), ShiftOnce(b)) {
      ShiftOnceOfXor(a, b);
    }
  }

  /** Bits that have not reached the low byte are only moved. */
  lemma HighByteMoves(high: Byte)
    ensures Shift((high as Word) << 8, 8) == high as Word
  {
  }

  lemma PackXor(crch: Byte, crcl: Byte, b: Byte)
    ensures Pack(crch, crcl) ^ (b as Word) == Xor((crcl as Word) << 8, (crch ^ b) as Word)
  {
  }

  lemma ByteStepSplits(crch: Byte, crcl: Byte, b: Byte)
    ensures ByteStep(Pack(crch, crcl), b) == Xor(crcl as Word, Shift((crch ^ b) as Word, 8))
  {
    PackXor(crch, crcl, b);
    ShiftOnceIsLinear();
    IterateIsLinear(ShiftOnce, Xor, (crcl as Word) << 8, (crch ^ b) as Word, 8);
    HighByteMoves(crcl);
  }

  lemma JoinParts(shifted: Word, crcl: Byte, lo: Byte, hi: Byte)
    requires Pack(hi, lo) == shifted
    ensures Pack(crcl ^ hi, lo) == Xor(crcl as Word, shifted)
  {
  }

  lemma StepFromParts(crch: Byte, crcl: Byte, b: Byte, i: Byte, lo: Byte, hi: Byte)
    requires i == crch ^ b
    requires Pack(hi, lo) == Shift(i as Word, 8)
    ensures ByteStep(Pack(crch, crcl), b) == Pack(crcl ^ hi, lo)
  {
    ByteStepSplits(crch, crcl, b);
    JoinParts(Shift(i as Word, 8), crcl, lo, hi);
  }

  /** One table step is eight single-bit steps. */
  lemma TableStep(crch: Byte, crcl: Byte, b: Byte, i: Byte)
    requires i == crch ^ b
    ensures ByteStep(Pack(crch, crcl), b) == Pack(crcl ^ CrcHi(i), CrcLo(i))
  {
    TableIsShifted(i);
    StepFromParts(crch, crcl, b, i, CrcLo(i), CrcHi(i));
  }

  lemma RunNext(buffer: seq<Byte>, pos: nat, w: Word, next: Word)
    requires pos < |buffer|
    requires w == Run(0xFFFF, buffer[..pos])
    requires next == ByteStep(w, buffer[pos])
    ensures next == Run(0xFFFF, buffer[..pos + 1])
  {
    FoldNext(ByteStep, 0xFFFF, buffer, pos);
  }

  // ----- the check of an RTU frame -----

  datatype FrameStatus = Accepted | InvalidDataSize | InvalidCrc | SlaveIdMismatch

  /** What the CRC of a frame is calculated over: the source passes the length through 16 bits. */
  function CrcLength(frameSize: nat): nat
    requires frameSize >= 2
  {
    (frameSize - 2) % 0x1_0000
  }

  predicate CrcMatches(frame: seq<Byte>)
    requires |frame| >= 2
  {
    ((frame[|frame| - 2] as Word) << 8) | (frame[|frame| - 1] as Word)
    == SwapBytes(Run(0xFFFF, frame[..CrcLength(|frame|)]))
  }

  /** The slave id and CRC bytes are written around the PDU already in the buffer. */
  method FinalizeRequest(request: array<Byte>, slaveId: Byte)
    requires request.Length >= 3
    modifies request
    ensures request[0] == slaveId
    ensures request[1..request.Length - 2] == old(request[1..request.Length - 2])
    ensures CrcMatches(request[..])
  {
    request[0] := slaveId;
    var crc := CalculateCRC16(request[..], CrcLength(request.Length));
    ghost var body := request[..request.Length - 2];
    request[request.Length - 2] := (crc >> 8) as Byte;
    request[request.Length - 1] := (crc & 0xff) as Byte;
    assert request[..][..CrcLength(request.Length)] == body[..CrcLength(request.Length)];
    FinalizedMatches(request[..], crc);
  }

  /** The checks on a frame of `count` bytes received into `response`, in the order they are made. */
  method CheckFrame(response: seq<Byte>, count: nat, slaveId: Byte, matchSlaveId: bool) returns (r: FrameStatus)
    requires count <= |response|
    ensures r.InvalidDataSize? <==> count < 3
    ensures r.InvalidCrc? <==> count >= 3 && !CrcMatches(response[..count])
    ensures r.SlaveIdMismatch? <==>
      count >= 3 && CrcMatches(response[..count]) && matchSlaveId && response[0] != slaveId
  {
    if count < 3 {
      return InvalidDataSize;
    }
    assert response[..count][..CrcLength(count)] == response[..CrcLength(count)];
    var crc := ((response[count - 2] as Word) << 8) | (response[count - 1] as Word);
    var calculated := CalculateCRC16(response, CrcLength(count));
    if crc != calculated {
      return InvalidCrc;
    }
    if matchSlaveId && slaveId != response[0] {
      return SlaveIdMismatch;
    }
    return Accepted;
  }

  lemma FinalizedMatches(frame: seq<Byte>, crc: Word)
    requires |frame| >= 2
    requires crc == SwapBytes(Run(0xFFFF, frame[..CrcLength(|frame|)]))
    requires frame[|frame| - 2] == (crc >> 8) as Byte && frame[|frame| - 1] == (crc & 0xff) as Byte
    ensures CrcMatches(frame)
  {
  }
}
