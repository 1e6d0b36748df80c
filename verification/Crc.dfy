/** The CRC-16 of XMODEM-CRC: polynomial 0x1021, initial register 0, no reflection. */
module Crc {
  import opened Bytes

  function CrcBytes(c: bv16): seq<byte> {
    [Hi(c), Lo(c)]
  }

  function Xor(a: bv16, b: bv16): bv16 {
    a ^ b
  }

  predicate Top(c: bv16) {
    c & 0x8000 != 0
  }

  /** One step of the shift register. */
  function Shift(c: bv16): bv16 {
    if Top(c) then (c << 1) ^ 0x1021 else c << 1
  }

  function Shifts(c: bv16, n: nat): bv16 {
    if n == 0 then c else Shift(Shifts(c, n - 1))
  }

  function ByteStep(c: bv16, b: byte): bv16 {
    Shifts(Xor(c, Up(b)), 8)
  }

  function CrcFrom(c: bv16, data: seq<byte>): bv16
    decreases |data|
  {
    if data == [] then c else CrcFrom(ByteStep(c, data[0]), data[1..])
  }

  function Crc16(data: seq<byte>): bv16 {
    CrcFrom(0, data)
  }

  /** The checksum loop; what it computes is characterised by `ResidueIsZero` and `BurstDetected`. */
  method ComputeCrc16(data: seq<byte>) returns (c: bv16)
    ensures c == Crc16(data)
  {
    c := 0;
    for k := 0 to |data|
      invariant CrcFrom(c, data[k..]) == Crc16(data)
    {
      ghost var before := c;
      c := c ^ (Word(data[k]) << 8);
      ghost var start := c;
      for i := 0 to 8
        invariant c == Shifts(start, i)
      {
        if c & 0x8000 != 0 {
          assert Shift(c) == (c << 1) ^ 0x1021;
          c := (c << 1) ^ 0x1021;
        } else {
          assert Shift(c) == c << 1;
          c := c << 1;
        }
      }
      assert c == ByteStep(before, data[k]);
      assert data[k..][1..] == data[k + 1..];
    }
    assert data[|data|..] == [];
  }

  // ---------------------------------------------------------------------------
  // Bit-vector facts. Each is a single identity over its bits.
  // ---------------------------------------------------------------------------

  lemma JoinByXor(c: bv16, a: byte, b: byte)
    ensures Xor(Xor(c, Up(a)), Word(b)) == Xor(c, Join(a, b))
  {
  }

  lemma UpInjective(a: byte, b: byte)
    requires Up(a) == Up(b)
    ensures a == b
  {
  }

  lemma XorSelf(a: bv16)
    ensures Xor(a, a) == 0
  {
  }

  lemma XorZero(a: bv16, b: bv16)
    requires Xor(a, b) == 0
    ensures a == b
  {
  }

  lemma XorCancel(c: bv16, a: bv16, b: bv16)
    requires Xor(c, a) == Xor(c, b)
    ensures a == b
  {
  }

  lemma XorCancelRight(c: bv16, a: bv16, b: bv16)
    requires Xor(a, c) == Xor(b, c)
    ensures a == b
  {
  }

  // ---------------------------------------------------------------------------
  // The shift step is linear and bijective
  // ---------------------------------------------------------------------------

  lemma TopTop(a: bv16, b: bv16)
    requires Top(a) && Top(b)
    ensures Shift(Xor(a, b)) == Xor(Shift(a), Shift(b))
  {
  }

  lemma TopLow(a: bv16, b: bv16)
    requires Top(a) && !Top(b)
    ensures Shift(Xor(a, b)) == Xor(Shift(a), Shift(b))
  {
  }

  lemma LowTop(a: bv16, b: bv16)
    requires !Top(a) && Top(b)
    ensures Shift(Xor(a, b)) == Xor(Shift(a), Shift(b))
  {
  }

  lemma LowLow(a: bv16, b: bv16)
    requires !Top(a) && !Top(b)
    ensures Shift(Xor(a, b)) == Xor(Shift(a), Shift(b))
  {
  }

  lemma ShiftLinear(a: bv16, b: bv16)
    ensures Shift(Xor(a, b)) == Xor(Shift(a), Shift(b))
  {
    hide Shift, Xor, Top;
    if Top(a) {
      if Top(b) { TopTop(a, b); } else { TopLow(a, b); }
    } else {
      if Top(b) { LowTop(a, b); } else { LowLow(a, b); }
    }
  }

  /** The inverse of the shift step: the low bit of the result tells which branch was taken. */
  function Unshift(c: bv16): bv16 {
    if c & 1 != 0 then ((c ^ 0x1021) >> 1) | 0x8000 else c >> 1
  }

  lemma UnshiftTop(c: bv16)
    requires Top(c)
    ensures Unshift((c << 1) ^ 0x1021) == c
  {
  }

  lemma UnshiftLow(c: bv16)
    requires !Top(c)
    ensures Unshift(c << 1) == c
  {
  }

  lemma ShiftOdd(c: bv16)
    requires c & 1 != 0
    ensures Shift(((c ^ 0x1021) >> 1) | 0x8000) == c
  {
  }

  lemma ShiftEven(c: bv16)
    requires c & 1 == 0
    ensures Shift(c >> 1) == c
  {
  }

  lemma ShiftBijective(c: bv16)
    ensures Unshift(Shift(c)) == c && Shift(Unshift(c)) == c
  {
    if Top(c) { UnshiftTop(c); } else { UnshiftLow(c); }
    if c & 1 != 0 { ShiftOdd(c); } else { ShiftEven(c); }
  }

  lemma {:induction false} ShiftsLinear(a: bv16, b: bv16, n: nat)
    ensures Shifts(Xor(a, b), n) == Xor(Shifts(a, n), Shifts(b, n))
  {
    hide Shift, Xor, Top;
    if n > 0 {
      ShiftsLinear(a, b, n - 1);
      ShiftLinear(Shifts(a, n - 1), Shifts(b, n - 1));
    }
  }

  lemma {:induction false} ShiftsInjective(a: bv16, b: bv16, n: nat)
    requires Shifts(a, n) == Shifts(b, n)
    ensures a == b
  {
    if n > 0 {
      ShiftBijective(Shifts(a, n - 1));
      ShiftBijective(Shifts(b, n - 1));
      ShiftsInjective(a, b, n - 1);
    }
  }

  lemma {:induction false} ShiftsAdd(c: bv16, m: nat, n: nat)
    ensures Shifts(Shifts(c, m), n) == Shifts(c, m + n)
  {
    if n > 0 {
      ShiftsAdd(c, m, n - 1);
    }
  }

  // ---------------------------------------------------------------------------
  // Two message bytes act on the register as one sixteen-bit word
  // ---------------------------------------------------------------------------

  lemma LowByteShifts(b: byte)
    ensures var w := Word(b);
            && Shift(w) == w << 1 && Shift(w << 1) == w << 2
            && Shift(w << 2) == w << 3 && Shift(w << 3) == w << 4
            && Shift(w << 4) == w << 5 && Shift(w << 5) == w << 6
            && Shift(w << 6) == w << 7 && Shift(w << 7) == w << 8
  {
  }

  lemma EightShifts(c: bv16)
    ensures Shifts(c, 8) == Shift(Shift(Shift(Shift(Shift(Shift(Shift(Shift(c))))))))
  {
    hide Shift;
    assert Shifts(c, 1) == Shift(c);
    assert Shifts(c, 2) == Shift(Shift(c));
    assert Shifts(c, 4) == Shift(Shift(Shifts(c, 2)));
    assert Shifts(c, 6) == Shift(Shift(Shifts(c, 4)));
  }

  lemma LowByteMovesUp(b: byte)
    ensures Shifts(Word(b), 8) == Up(b)
  {
    LowByteShifts(b);
    EightShifts(Word(b));
  }

  lemma TwoBytes(c: bv16, a: byte, b: byte)
    ensures ByteStep(ByteStep(c, a), b) == Shifts(Xor(c, Join(a, b)), 16)
  {
    hide Shift, Shifts, Xor, Up, Word, Join;
    var x := Xor(c, Up(a));
    LowByteMovesUp(b);
    ShiftsLinear(x, Word(b), 8);
    ShiftsAdd(Xor(x, Word(b)), 8, 8);
    JoinByXor(c, a, b);
  }

  // ---------------------------------------------------------------------------
  // What the check value detects
  // ---------------------------------------------------------------------------

  lemma {:induction false} CrcConcat(c: bv16, x: seq<byte>, y: seq<byte>)
    ensures CrcFrom(c, x + y) == CrcFrom(CrcFrom(c, x), y)
    decreases |x|
  {
    hide ByteStep;
    if x == [] {
      assert x + y == y;
    } else {
      assert (x + y)[1..] == x[1..] + y;
      CrcConcat(ByteStep(c, x[0]), x[1..], y);
    }
  }

  lemma ByteStepInjective(c: bv16, d: bv16, b: byte)
    requires ByteStep(c, b) == ByteStep(d, b)
    ensures c == d
  {
    hide Shifts, Xor, Up;
    ShiftsInjective(Xor(c, Up(b)), Xor(d, Up(b)), 8);
    XorCancelRight(Up(b), c, d);
  }

  lemma {:induction false} CrcFromInjective(c: bv16, d: bv16, data: seq<byte>)
    requires CrcFrom(c, data) == CrcFrom(d, data)
    ensures c == d
    decreases |data|
  {
    hide ByteStep;
    if data != [] {
      CrcFromInjective(ByteStep(c, data[0]), ByteStep(d, data[0]), data[1..]);
      ByteStepInjective(c, d, data[0]);
    }
  }

  /** Appending the big-endian check value, and nothing else, makes the register end at zero. */
  lemma ResidueIsZero(data: seq<byte>, hi: byte, lo: byte)
    ensures Crc16(data + [hi, lo]) == 0 <==> Crc16(data) == Join(hi, lo)
    ensures Crc16(data) == Join(hi, lo) <==> [hi, lo] == CrcBytes(Crc16(data))
  {
    hide ByteStep, Shifts, Xor, Join, Hi, Lo;
    var c := Crc16(data);
    CrcConcat(0, data, [hi, lo]);
    assert [hi, lo][1..] == [lo] && [lo][1..] == [];
    assert CrcFrom(ByteStep(c, hi), [lo]) == ByteStep(ByteStep(c, hi), lo);
    assert CrcFrom(c, [hi, lo]) == ByteStep(ByteStep(c, hi), lo);
    TwoBytes(c, hi, lo);
    ZeroShifts(Xor(c, Join(hi, lo)), 16);
    JoinSplit(c);
    if c == Join(hi, lo) {
      XorSelf(c);
      JoinInjective(hi, lo, Hi(c), Lo(c));
    } else if Xor(c, Join(hi, lo)) == 0 {
      XorZero(c, Join(hi, lo));
    }
  }

  lemma {:induction false} ZeroShifts(c: bv16, n: nat)
    ensures Shifts(c, n) == 0 <==> c == 0
  {
    hide Shifts;
    ShiftsOfZero(n);
    if Shifts(c, n) == 0 {
      ShiftsInjective(c, 0, n);
    }
  }

  lemma {:induction false} ShiftsOfZero(n: nat)
    ensures Shifts(0, n) == 0
  {
    if n > 0 {
      ShiftsOfZero(n - 1);
    }
  }

  lemma OneByteDetected(c: bv16, a: byte, b: byte)
    requires ByteStep(c, a) == ByteStep(c, b)
    ensures a == b
  {
    hide Shifts, Xor, Up;
    ShiftsInjective(Xor(c, Up(a)), Xor(c, Up(b)), 8);
    XorCancel(c, Up(a), Up(b));
    UpInjective(a, b);
  }

  lemma TwoBytesDetected(c: bv16, a: byte, b: byte, a': byte, b': byte)
    requires ByteStep(ByteStep(c, a), b) == ByteStep(ByteStep(c, a'), b')
    ensures a == a' && b == b'
  {
    hide ByteStep, Shifts, Xor, Join;
    TwoBytes(c, a, b);
    TwoBytes(c, a', b');
    ShiftsInjective(Xor(c, Join(a, b)), Xor(c, Join(a', b')), 16);
    XorCancel(c, Join(a, b), Join(a', b'));
    JoinInjective(a, b, a', b');
  }

  /** `x` and `y` have equal length and agree everywhere except perhaps at `p` and `p + 1`. */
  ghost predicate DifferWithin(x: seq<byte>, y: seq<byte>, p: nat) {
    |x| == |y| && forall k :: 0 <= k < |x| && k != p && k != p + 1 ==> x[k] == y[k]
  }

  /** Two different messages that differ only inside two adjacent bytes never share a CRC. */
  lemma BurstDetected(x: seq<byte>, y: seq<byte>, p: nat)
    requires DifferWithin(x, y, p)
    requires x != y
    ensures Crc16(x) != Crc16(y)
  {
    hide CrcFrom;
    if p < |x| {
      var q := if p + 2 <= |x| then p + 2 else p + 1;
      var c := Crc16(x[..p]);
      assert x[..p] == y[..p] && x[q..] == y[q..];
      assert x == x[..p] + (x[p..q] + x[q..]) && y == y[..p] + (y[p..q] + y[q..]);
      CrcConcat(0, x[..p], x[p..q] + x[q..]);
      CrcConcat(0, y[..p], y[p..q] + y[q..]);
      CrcConcat(c, x[p..q], x[q..]);
      CrcConcat(c, y[p..q], y[q..]);
      if Crc16(x) == Crc16(y) {
        CrcFromInjective(CrcFrom(c, x[p..q]), CrcFrom(c, y[p..q]), x[q..]);
        MiddleDetected(c, x[p..q], y[p..q]);
      }
    }
  }

  lemma MiddleDetected(c: bv16, u: seq<byte>, v: seq<byte>)
    requires 1 <= |u| == |v| <= 2
    requires CrcFrom(c, u) == CrcFrom(c, v)
    ensures u == v
  {
    hide ByteStep;
    if |u| == 1 {
      assert u == [u[0]] && v == [v[0]];
      assert CrcFrom(c, [u[0]]) == ByteStep(c, u[0]);
      assert CrcFrom(c, [v[0]]) == ByteStep(c, v[0]);
      OneByteDetected(c, u[0], v[0]);
    } else {
      assert u[1..] == [u[1]] && v[1..] == [v[1]];
      assert CrcFrom(ByteStep(c, u[0]), [u[1]]) == ByteStep(ByteStep(c, u[0]), u[1]);
      assert CrcFrom(ByteStep(c, v[0]), [v[1]]) == ByteStep(ByteStep(c, v[0]), v[1]);
      TwoBytesDetected(c, u[0], u[1], v[0], v[1]);
    }
  }

  /** So a burst of damage anywhere in a message followed by its check bytes, even across the
      boundary between the two, fails the receiver's comparison. */
  lemma DamageRejected(data: seq<byte>, got: seq<byte>, hi: byte, lo: byte, p: nat)
    requires |got| == |data|
    requires DifferWithin(data + CrcBytes(Crc16(data)), got + [hi, lo], p)
    requires data + CrcBytes(Crc16(data)) != got + [hi, lo]
    ensures Crc16(got) != Join(hi, lo)
  {
    var ck := CrcBytes(Crc16(data));
    ResidueIsZero(data, ck[0], ck[1]);
    assert ck == [ck[0], ck[1]];
    BurstDetected(data + ck, got + [hi, lo], p);
    ResidueIsZero(got, hi, lo);
  }
}
