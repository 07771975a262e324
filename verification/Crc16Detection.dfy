/**
 What the check of a frame detects: any burst of up to sixteen consecutive bits, and so
 any alteration of one byte or of two adjacent bytes, in a frame of any length.
 */
module Crc16Detection {
  import opened Common
  import opened Iteration
  import opened Crc16Table
  import opened Crc16

  // ----- the register is linear and loses nothing -----

  function XorBytes(a: Byte, b: Byte): Byte {
    a ^ b
  }

  lemma XorPairs(v: Word, w: Word, a: Byte, b: Byte)
    ensures Xor(v ^ (a as Word), w ^ (b as Word)) == Xor(v, w) ^ (XorBytes(a, b) as Word)
  {
  }

  lemma XorZero(v: Word, w: Word)
    ensures Xor(v, w) == 0 <==> v == w
  {
    if v == w {
      XorSelf(v);
    } else if Xor(v, w) == 0 {
      XorCancels(v, w);
    }
  }

  lemma XorSelf(v: Word)
    ensures v ^ v == 0
  {
  }

  lemma XorCancels(v: Word, w: Word)
    requires v ^ w == 0
    ensures v == w
  {
  }

  lemma ByteStepOfXor(v: Word, w: Word, a: Byte, b: Byte)
    ensures Xor(ByteStep(v, a), ByteStep(w, b)) == ByteStep(Xor(v, w), XorBytes(a, b))
  {
    ShiftOnceIsLinear();
    IterateIsLinear(ShiftOnce, Xor, v ^ (a as Word), w ^ (b as Word), 8);
    XorPairs(v, w, a, b);
  }

  lemma ByteStepAddsUp()
    ensures AddsUp(ByteStep, Xor, XorBytes)
  {
    forall v, w, a, b ensures Xor(ByteStep(v, a), ByteStep(w, b)) == ByteStep(Xor(v, w), XorBytes(a, b)) {
      ByteStepOfXor(v, w, a, b);
    }
  }

  lemma ShiftOnceLosesNothing(a: Word, b: Word)
    requires ShiftOnce(a) == ShiftOnce(b)
    ensures a == b
  {
  }

  lemma ShiftOnceIsInjective()
    ensures IsInjective(ShiftOnce)
  {
    forall a, b | ShiftOnce(a) == ShiftOnce(b) ensures a == b {
      ShiftOnceLosesNothing(a, b);
    }
  }

  lemma ByteStepLosesNothing(v: Word, w: Word, b: Byte)
    requires ByteStep(v, b) == ByteStep(w, b)
    ensures v == w
  {
    ShiftOnceIsInjective();
    IterateIsInjective(ShiftOnce, v ^ (b as Word), w ^ (b as Word), 8);
    XorMoves(v, w, b as Word);
  }

  lemma ByteStepIsInjective()
    ensures IsInjectiveInState(ByteStep)
  {
    forall v, w, b | ByteStep(v, b) == ByteStep(w, b) ensures v == w {
      ByteStepLosesNothing(v, w, b);
    }
  }

  // ----- a wide register that holds the bits still to come -----

  type Wide = bv32

  function WideOnce(w: Wide): Wide {
    if w & 1 == 1 then (w >> 1) ^ 0xA001 else w >> 1
  }

  function WideByteShift(w: Wide): Wide {
    Iterate(WideOnce, w, 8)
  }

  function WideXor(a: Wide, b: Wide): Wide {
    a ^ b
  }

  function Widen(w: Word): Wide {
    w as Wide
  }

  lemma WideOnceParts(a: Wide, b: Wide)
    ensures (a ^ b) >> 1 == (a >> 1) ^ (b >> 1)
    ensures (a ^ b) & 1 == (a & 1) ^ (b & 1)
    ensures a & 1 == 0 || a & 1 == 1
    ensures b & 1 == 0 || b & 1 == 1
  {
  }

  lemma WideXorMoves(a: Wide, b: Wide, p: Wide)
    ensures (a ^ p) ^ (b ^ p) == a ^ b
    ensures (a ^ p) ^ b == (a ^ b) ^ p == a ^ (b ^ p)
  {
  }

  lemma WideOnceOfXor(a: Wide, b: Wide)
    ensures WideOnce(WideXor(a, b)) == WideXor(WideOnce(a), WideOnce(b))
  {
    WideOnceParts(a, b);
    WideXorMoves(a >> 1, b >> 1, 0xA001);
  }

  lemma WideByteShiftOfXor(a: Wide, b: Wide)
    ensures WideByteShift(WideXor(a, b)) == WideXor(WideByteShift(a), WideByteShift(b))
  {
    assert IsLinear(WideOnce, WideXor) by {
      forall x, y ensures WideOnce(WideXor(x, y)) == WideXor(WideOnce(x), WideOnce(y)) {
        WideOnceOfXor(x, y);
      }
    }
    IterateIsLinear(WideOnce, WideXor, a, b, 8);
  }

  lemma WideOnceOfWord(w: Word)
    ensures WideOnce(w as Wide) == ShiftOnce(w) as Wide
  {
  }

  lemma WideByteShiftOfWord(w: Word)
    ensures WideByteShift(Widen(w)) == Widen(Shift(w, 8))
  {
    assert Commutes(ShiftOnce, WideOnce, Widen) by {
      forall x ensures WideOnce(Widen(x)) == Widen(ShiftOnce(x)) {
        WideOnceOfWord(x);
      }
    }
    IterateCommutes(ShiftOnce, WideOnce, Widen, w, 8);
  }

  function WideShiftEight(w: Wide): Wide {
    WideOnce(WideOnce(WideOnce(WideOnce(WideOnce(WideOnce(WideOnce(WideOnce(w))))))))
  }

  lemma WideShiftEightIsShift(w: Wide)
    ensures WideByteShift(w) == WideShiftEight(w)
  {
  }

  lemma WaitingBitsMove(rest: Wide)
    requires rest < 0x100_0000
    ensures WideShiftEight(rest << 8) == rest
  {
  }

  /** Up to four bytes as one bit pattern, in the order the bits are sent: least significant first. */
  function Pattern(bytes: seq<Byte>): (r: Wide)
    requires |bytes| <= 4
    ensures |bytes| <= 3 ==> r < 0x100_0000
    ensures |bytes| <= 2 ==> r < 0x1_0000
    ensures |bytes| <= 1 ==> r < 0x100
  {
    if bytes == [] then 0 else (Pattern(bytes[1..]) << 8) ^ (bytes[0] as Wide)
  }

  /** The register with three or fewer bytes still to come. */
  function Ahead(w: Word, bytes: seq<Byte>): Wide {
    if |bytes| <= 4 then WideXor(Widen(w), Pattern(bytes)) else 0
  }

  lemma FirstByteJoins(w: Word, a: Byte, later: Wide, all: Wide)
    requires all == later ^ (a as Wide)
    ensures WideXor(Widen(w), all) == WideXor(Widen(w ^ (a as Word)), later)
  {
  }

  lemma {:induction false} PatternOfFirst(a: Byte, rest: seq<Byte>)
    requires |rest| < 3
    ensures Pattern([a] + rest) == (Pattern(rest) << 8) ^ (a as Wide)
  {
  }

  lemma WideByteStep(w: Word, tail: Wide)
    requires tail < 0x100_0000
    ensures WideByteShift(WideXor(Widen(w), tail << 8)) == WideXor(Widen(Shift(w, 8)), tail)
  {
    WideByteShiftOfXor(Widen(w), tail << 8);
    WideByteShiftOfWord(w);
    WideShiftEightIsShift(tail << 8);
    WaitingBitsMove(tail);
  }

  lemma AheadStep(w: Word, a: Byte, rest: seq<Byte>)
    requires |rest| < 3
    ensures WideByteShift(Ahead(w, [a] + rest)) == Ahead(ByteStep(w, a), rest)
  {
    PatternOfFirst(a, rest);
    PatternStep(w, a, Pattern(rest), Pattern([a] + rest));
  }

  lemma PatternStep(w: Word, a: Byte, tail: Wide, all: Wide)
    requires tail < 0x100_0000
    requires all == (tail << 8) ^ (a as Wide)
    ensures WideByteShift(WideXor(Widen(w), all)) == WideXor(Widen(Shift(w ^ (a as Word), 8)), tail)
  {
    FirstByteJoins(w, a, tail << 8, all);
    WideByteStep(w ^ (a as Word), tail);
  }

  // ----- bursts -----

  /** The pattern fits in sixteen consecutive bits. */
  predicate FitsSixteenBits(e: Wide)
    decreases e
  {
    e < 0x1_0000 || (e & 1 == 0 && FitsSixteenBits(e >> 1))
  }

  predicate LeavesTrace(e: Wide) {
    e != 0 && FitsSixteenBits(e)
  }

  lemma NarrowStep(e: Wide)
    requires e != 0 && e < 0x1_0000
    ensures WideOnce(e) != 0 && WideOnce(e) < 0x1_0000
  {
  }

  lemma EvenStep(e: Wide)
    requires e != 0 && e & 1 == 0
    ensures WideOnce(e) == e >> 1 != 0
  {
  }

  lemma TraceStays()
    ensures Keeps(WideByteShift, LeavesTrace)
  {
    assert Keeps(WideOnce, LeavesTrace) by {
      forall x | LeavesTrace(x) ensures LeavesTrace(WideOnce(x)) {
        if x < 0x1_0000 {
          NarrowStep(x);
        } else {
          EvenStep(x);
        }
      }
    }
    forall x | LeavesTrace(x) ensures LeavesTrace(WideByteShift(x)) {
      IterateKeeps(WideOnce, LeavesTrace, x, 8);
    }
  }

  /** A burst of up to sixteen bits, fed to a clear register, does not leave it clear. */
  lemma {:induction false} BurstIsNotLost(e: seq<Byte>)
    requires |e| == 3 && LeavesTrace(Pattern(e))
    ensures Run(0, e) != 0
  {
    assert HoldsInputs(ByteStep, WideByteShift, Ahead, 3) by {
      forall w, a, rest | |rest| < 3 ensures WideByteShift(Ahead(w, [a] + rest)) == Ahead(ByteStep(w, a), rest) {
        AheadStep(w, a, rest);
      }
    }
    WideRun(ByteStep, WideByteShift, Ahead, 3, 0, e);
    TraceStays();
    IterateKeeps(WideByteShift, LeavesTrace, Pattern(e), 3);
    assert Ahead(0, e) == Pattern(e);
    assert Ahead(Run(0, e), []) == Widen(Run(0, e));
  }

  // ----- messages and frames -----

  predicate Clear(d: seq<Byte>) {
    forall i | 0 <= i < |d| :: d[i] == 0
  }

  /** The bits in which two messages of the same length differ. */
  function Difference(a: seq<Byte>, b: seq<Byte>): seq<Byte>
    requires |a| == |b|
  {
    PlusAll(XorBytes, a, b)
  }

  /** Up to sixteen consecutive bits are set, within the three bytes from position i. */
  predicate IsBurst(d: seq<Byte>, i: nat) {
    && i + 3 <= |d|
    && Clear(d[..i])
    && LeavesTrace(Pattern(d[i..i + 3]))
    && Clear(d[i + 3..])
  }

  lemma ZeroStep()
    ensures ByteStep(0, 0) == 0
    ensures Shift(0, 8) == 0
  {
  }

  lemma {:induction false} ClearRun(d: seq<Byte>)
    requires Clear(d)
    ensures Run(0, d) == 0
  {
    if d != [] {
      ClearRun(d[..|d| - 1]);
      ZeroStep();
    }
  }

  lemma BurstLeavesRegister(d: seq<Byte>, i: nat)
    requires IsBurst(d, i)
    ensures Run(0, d) != 0
  {
    var before, burst, after := d[..i], d[i..i + 3], d[i + 3..];
    assert d == before + (burst + after);
    FoldConcat(ByteStep, 0, before, burst + after);
    ClearRun(before);
    FoldConcat(ByteStep, 0, burst, after);
    BurstIsNotLost(burst);
    if Run(0, d) == 0 {
      ClearRun(after);
      ByteStepIsInjective();
      FoldIsInjective(ByteStep, Run(0, burst), 0, after);
    }
  }

  /** Two messages leave the same register exactly if the register cannot tell their difference from nothing. */
  lemma SameRegister(w: Word, a: seq<Byte>, b: seq<Byte>)
    requires |a| == |b|
    ensures Run(w, a) == Run(w, b) <==> Run(0, Difference(a, b)) == 0
  {
    ByteStepAddsUp();
    DifferenceOfRuns(ByteStep, Xor, XorBytes, w, w, a, b);
    XorZero(w, w);
    XorZero(Run(w, a), Run(w, b));
  }

  /** The bytes of a frame that its check looks at: all of them, unless the length does not fit in 16 bits. */
  function Checked(frame: seq<Byte>): seq<Byte>
    requires |frame| >= 2
  {
    frame[..CrcLength(|frame|)] + frame[|frame| - 2..]
  }

  lemma RunOfTwo(w: Word, hi: Byte, lo: Byte)
    ensures Run(w, [hi, lo]) == ByteStep(ByteStep(w, hi), lo)
  {
    FoldNext(ByteStep, w, [hi, lo], 0);
    FoldNext(ByteStep, w, [hi, lo], 1);
    assert [hi, lo][..2] == [hi, lo];
  }

  /** Feeding the low byte of the register back shifts it out. */
  lemma LowByteCancels(hi: Byte, lo: Byte)
    ensures ByteStep(Pack(hi, lo), hi) == lo as Word
  {
  }

  lemma PackOfByte(b: Byte)
    ensures Pack(b, 0) == b as Word
  {
  }

  lemma BytesCancel(hi: Byte, lo: Byte)
    ensures Run(Pack(hi, lo), [hi, lo]) == 0
  {
    RunOfTwo(Pack(hi, lo), hi, lo);
    LowByteCancels(hi, lo);
    PackOfByte(lo);
    LowByteCancels(lo, 0);
  }

  lemma PatternOfTwo(x: Byte, y: Byte)
    ensures Pattern([x, y, 0]) == ((y as Wide) << 8) ^ (x as Wide)
  {
    assert [x, y, 0][1..] == [y, 0] && [y, 0][1..] == [0] && [0][1..] == [];
    assert Pattern([0]) == 0;
    assert Pattern([y, 0]) == y as Wide;
  }

  lemma TwoBytesLeaveTrace(x: Byte, y: Byte)
    requires x != 0 || y != 0
    ensures LeavesTrace(Pattern([x, y, 0]))
  {
    PatternOfTwo(x, y);
    TwoBytesFit(x, y);
  }

  lemma TwoBytesFit(x: Byte, y: Byte)
    requires x != 0 || y != 0
    ensures 0 < ((y as Wide) << 8) ^ (x as Wide) < 0x1_0000
  {
  }

  lemma NonzeroTwoBytes(x: Byte, y: Byte)
    requires Run(0, [x, y]) == 0
    ensures x == 0 && y == 0
  {
    assert [x, y, 0][..2] == [x, y];
    ZeroStep();
    if x != 0 || y != 0 {
      TwoBytesLeaveTrace(x, y);
      BurstIsNotLost([x, y, 0]);
    }
  }

  lemma UnswapIsPack(w: Word, hi: Byte, lo: Byte)
    requires ((hi as Word) << 8) | (lo as Word) == SwapBytes(w)
    ensures w == Pack(hi, lo)
  {
  }

  lemma XorBytesZero(a: Byte, b: Byte)
    ensures XorBytes(a, b) == 0 <==> a == b
  {
  }

  lemma PackOfParts(w: Word)
    ensures w == Pack((w & 0xff) as Byte, (w >> 8) as Byte)
  {
  }

  /** The CRC bytes match exactly if feeding them to the register clears it. */
  lemma CrcBytesClear(w: Word, hi: Byte, lo: Byte)
    ensures Run(w, [hi, lo]) == 0 <==> ((hi as Word) << 8) | (lo as Word) == SwapBytes(w)
  {
    if ((hi as Word) << 8) | (lo as Word) == SwapBytes(w) {
      UnswapIsPack(w, hi, lo);
      BytesCancel(hi, lo);
    }
    if Run(w, [hi, lo]) == 0 {
      var a, b := (w & 0xff) as Byte, (w >> 8) as Byte;
      PackOfParts(w);
      OnlyOneClears(a, b, hi, lo);
      SwapIsRepack(hi, lo);
    }
  }

  lemma OnlyOneClears(a: Byte, b: Byte, hi: Byte, lo: Byte)
    requires Run(Pack(a, b), [hi, lo]) == 0
    ensures a == hi && b == lo
  {
    BytesCancel(a, b);
    SameRegister(Pack(a, b), [hi, lo], [a, b]);
    assert Difference([hi, lo], [a, b]) == [XorBytes(hi, a), XorBytes(lo, b)];
    NonzeroTwoBytes(XorBytes(hi, a), XorBytes(lo, b));
    XorBytesZero(hi, a);
    XorBytesZero(lo, b);
  }

  lemma CrcMatchesClears(frame: seq<Byte>)
    requires |frame| >= 2
    ensures CrcMatches(frame) <==> Run(0xFFFF, Checked(frame)) == 0
  {
    var n := |frame|;
    ChecksumRun(frame[..CrcLength(n)], frame[n - 2], frame[n - 1]);
    assert frame[n - 2..] == [frame[n - 2], frame[n - 1]];
  }

  lemma ChecksumRun(data: seq<Byte>, hi: Byte, lo: Byte)
    ensures Run(0xFFFF, data + [hi, lo]) == 0 <==> ((hi as Word) << 8) | (lo as Word) == SwapBytes(Run(0xFFFF, data))
  {
    var w := Run(0xFFFF, data);
    assert Run(0xFFFF, data + [hi, lo]) == Run(w, [hi, lo]) by {
      FoldConcat(ByteStep, 0xFFFF, data, [hi, lo]);
    }
    CrcBytesClear(w, hi, lo);
  }

  // ----- main results -----

  /** Every byte of a frame of up to 65537 bytes is checked. */
  lemma WholeFrameIsChecked(frame: seq<Byte>)
    requires 2 <= |frame| <= 0x1_0001
    ensures Checked(frame) == frame
  {
  }

  /**
   A frame that passes the check still passes after an alteration exactly if the check cannot tell the
   alteration from none: the register, cleared and run over the changed bits, is clear again.
   */
  lemma AlteredFramePasses(frame: seq<Byte>, altered: seq<Byte>)
    requires 2 <= |frame| == |altered|
    requires CrcMatches(frame)
    ensures CrcMatches(altered) <==> Run(0, Difference(Checked(frame), Checked(altered))) == 0
  {
    CrcMatchesClears(frame);
    CrcMatchesClears(altered);
    SameRegister(0xFFFF, Checked(frame), Checked(altered));
  }

  /** A burst of up to sixteen bits in the checked bytes is always detected. */
  lemma BurstIsDetected(frame: seq<Byte>, altered: seq<Byte>, i: nat)
    requires 2 <= |frame| == |altered|
    requires CrcMatches(frame)
    requires IsBurst(Difference(Checked(frame), Checked(altered)), i)
    ensures !CrcMatches(altered)
  {
    AlteredFramePasses(frame, altered);
    BurstLeavesRegister(Difference(Checked(frame), Checked(altered)), i);
  }

  lemma TwoBytesLeaveRegister(d: seq<Byte>, j: nat)
    requires j + 2 <= |d| && Clear(d[..j]) && Clear(d[j + 2..])
    ensures Run(0, d) == 0 <==> Clear(d)
  {
    if Clear(d) {
      ClearRun(d);
    }
    var before, two, after := d[..j], [d[j], d[j + 1]], d[j + 2..];
    assert d == before + (two + after);
    FoldConcat(ByteStep, 0, before, two + after);
    ClearRun(before);
    FoldConcat(ByteStep, 0, two, after);
    if Run(0, d) == 0 {
      ClearRun(after);
      ByteStepIsInjective();
      FoldIsInjective(ByteStep, Run(0, two), 0, after);
      NonzeroTwoBytes(d[j], d[j + 1]);
    }
  }

  lemma ClearDifference(a: seq<Byte>, b: seq<Byte>)
    requires |a| == |b|
    ensures Clear(Difference(a, b)) <==> a == b
  {
  }

  /** Whatever is done to one byte or to two adjacent bytes passes exactly if no checked byte is changed. */
  lemma AdjacentBytesAreDetected(frame: seq<Byte>, altered: seq<Byte>, i: nat)
    requires i + 2 <= |frame| == |altered|
    requires CrcMatches(frame)
    requires frame[..i] == altered[..i] && frame[i + 2..] == altered[i + 2..]
    ensures CrcMatches(altered) <==> Checked(altered) == Checked(frame)
  {
    var a, b := Checked(frame), Checked(altered);
    var j := AlterationIsLocal(frame, altered, i);
    DifferenceIsLocal(a, b, j);
    AlteredFramePasses(frame, altered);
    TwoBytesLeaveRegister(Difference(a, b), j);
    ClearDifference(a, b);
  }

  lemma AlterationIsLocal(frame: seq<Byte>, altered: seq<Byte>, i: nat) returns (j: nat)
    requires i + 2 <= |frame| == |altered|
    requires frame[..i] == altered[..i] && frame[i + 2..] == altered[i + 2..]
    ensures j + 2 <= |Checked(frame)|
    ensures forall p | 0 <= p < |Checked(frame)| && !(j <= p < j + 2) :: Checked(frame)[p] == Checked(altered)[p]
  {
    var n, k := |frame|, CrcLength(|frame|);
    j := if i < k then i else if i + 2 > n - 2 then k else 0;
    forall p | 0 <= p < k + 2 && !(j <= p < j + 2) ensures Checked(frame)[p] == Checked(altered)[p] {
      var q := if p < k then p else n - 2 + (p - k);
      assert Checked(frame)[p] == frame[q] && Checked(altered)[p] == altered[q];
      assert q < i || q >= i + 2;
      assert q < i ==> frame[q] == frame[..i][q] == altered[..i][q];
      assert q >= i + 2 ==> frame[q] == frame[i + 2..][q - i - 2] == altered[i + 2..][q - i - 2];
    }
  }

  lemma DifferenceIsLocal(a: seq<Byte>, b: seq<Byte>, j: nat)
    requires j + 2 <= |a| == |b|
    requires forall p | 0 <= p < |a| && !(j <= p < j + 2) :: a[p] == b[p]
    ensures Clear(Difference(a, b)[..j]) && Clear(Difference(a, b)[j + 2..])
  {
  }
}
