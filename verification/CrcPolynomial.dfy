/** What the check value is: the remainder of the message, as a polynomial over two elements and multiplied by
    x^16, on division by x^16 + x^12 + x^5 + 1. */
module CrcPolynomial {
  import opened Bytes
  import opened Crc

  const DEGREE := 16

  /** The coefficients of the divisor, that of x^16 first. */
  function Divisor(): (g: seq<bool>)
    ensures |g| == DEGREE + 1
  {
    seq(DEGREE + 1, i => DEGREE - i == 16 || DEGREE - i == 12 || DEGREE - i == 5 || DEGREE - i == 0)
  }

  /** Addition of polynomials. */
  function Plus(x: seq<bool>, y: seq<bool>): (z: seq<bool>)
    requires |x| == |y|
    ensures |z| == |x|
    ensures forall i :: 0 <= i < |z| ==> z[i] == (x[i] != y[i])
  {
    seq(|x|, i requires 0 <= i < |x| => x[i] != y[i])
  }

  /** Long division: as long as there is a coefficient of degree 16 or more, the leading one is cancelled. */
  function Remainder(s: seq<bool>): (r: seq<bool>)
    requires |s| >= DEGREE
    ensures |r| == DEGREE
    decreases |s|
  {
    if |s| == DEGREE then s
    else if s[0] then Remainder(Plus(s[..DEGREE + 1], Divisor())[1..] + s[DEGREE + 1..])
    else Remainder(s[1..])
  }

  function Double(c: bv16): bv16 {
    c << 1
  }

  /** The first `n` bits of a word, the most significant first. */
  function BitsOf(c: bv16, n: nat): (s: seq<bool>)
    ensures |s| == n
    decreases n
  {
    if n == 0 then [] else [Top(c)] + BitsOf(Double(c), n - 1)
  }

  function ByteBits(b: byte): (s: seq<bool>)
    ensures |s| == 8
  {
    BitsOf(Up(b), 8)
  }

  /** A message as a polynomial. */
  function Bits(data: seq<byte>): seq<bool> {
    if data == [] then [] else ByteBits(data[0]) + Bits(data[1..])
  }

  function WordBits(c: bv16): (s: seq<bool>)
    ensures |s| == DEGREE
  {
    BitsOf(c, DEGREE)
  }

  function Zeros(n: nat): seq<bool> {
    Repeat(false, n)
  }

  // ---------------------------------------------------------------------------
  // Bits of words
  // ---------------------------------------------------------------------------

  lemma TopsCancel(a: bv16, b: bv16)
    requires Top(a) && Top(b)
    ensures !Top(Xor(a, b))
  {
  }

  lemma TopStays(a: bv16, b: bv16)
    requires Top(a) && !Top(b)
    ensures Top(Xor(a, b)) && Top(Xor(b, a))
  {
  }

  lemma NoTops(a: bv16, b: bv16)
    requires !Top(a) && !Top(b)
    ensures !Top(Xor(a, b))
  {
  }

  lemma DoublesAdd(a: bv16, b: bv16)
    ensures Double(Xor(a, b)) == Xor(Double(a), Double(b))
  {
  }

  lemma DoubleXor(a: bv16, b: bv16)
    ensures Double(Xor(a, b)) == Xor(Double(a), Double(b))
    ensures Top(Xor(a, b)) == (Top(a) != Top(b))
  {
    hide Double, Xor, Top;
    DoublesAdd(a, b);
    if Top(a) {
      if Top(b) { TopsCancel(a, b); } else { TopStays(a, b); }
    } else {
      if Top(b) { TopStays(b, a); } else { NoTops(a, b); }
    }
  }

  lemma {:induction false} BitsOfXor(a: bv16, b: bv16, n: nat)
    ensures BitsOf(Xor(a, b), n) == Plus(BitsOf(a, n), BitsOf(b, n))
    decreases n
  {
    hide Xor, Top, Double;
    if n > 0 {
      DoubleXor(a, b);
      BitsOfXor(Double(a), Double(b), n - 1);
    }
  }

  function Doubles(c: bv16, n: nat): bv16
    decreases n
  {
    if n == 0 then c else Doubles(Double(c), n - 1)
  }

  lemma {:induction false} BitsOfMore(c: bv16, m: nat, n: nat)
    ensures BitsOf(c, m + n) == BitsOf(c, m) + BitsOf(Doubles(c, m), n)
    decreases m
  {
    hide Top, Double;
    if m > 0 {
      BitsOfMore(Double(c), m - 1, n);
    }
  }

  lemma EightDoubles(c: bv16)
    ensures Doubles(c, 8) == c << 8
  {
    var d := Double(Double(Double(Double(c))));
    FourDoubles(c);
    FourDoubles(d);
    assert Doubles(c, 8) == Doubles(d, 4) by {
      hide Double;
      assert Doubles(c, 7) == Doubles(Double(c), 6);
      assert Doubles(Double(c), 7) == Doubles(Double(Double(c)), 6);
      assert Doubles(Double(Double(c)), 6) == Doubles(Double(Double(Double(c))), 5);
    }
    hide Doubles;
  }

  lemma FourDoubles(c: bv16)
    ensures Doubles(c, 4) == Double(Double(Double(Double(c))))
  {
    hide Double;
    assert Doubles(c, 4) == Doubles(Double(c), 3);
    assert Doubles(Double(c), 3) == Doubles(Double(Double(c)), 2);
  }

  lemma {:induction false} DoublesMore(c: bv16, m: nat, n: nat)
    ensures Doubles(c, m + n) == Doubles(Doubles(c, m), n)
    decreases m
  {
    hide Double;
    if m > 0 {
      DoublesMore(Double(c), m - 1, n);
    }
  }

  lemma AllBitsGone(c: bv16)
    ensures Doubles(c, DEGREE) == 0
  {
    DoublesMore(c, 8, 8);
    EightDoubles(c);
    EightDoubles(c << 8);
    hide Doubles;
  }

  lemma {:induction false} BitsOfZero(n: nat)
    ensures BitsOf(0, n) == Zeros(n)
  {
    assert Double(0) == 0 && !Top(0);
    hide Top, Double;
    if n > 0 {
      BitsOfZero(n - 1);
    }
  }

  lemma DoubledBits(c: bv16)
    ensures WordBits(Double(c)) == WordBits(c)[1..] + [false]
  {
    BitsOfMore(c, DEGREE, 1);
    AllBitsGone(c);
    BitsOfZero(1);
    assert BitsOf(c, DEGREE + 1) == [Top(c)] + BitsOf(Double(c), DEGREE);
    hide Top, Double, Doubles, BitsOf;
    assert Zeros(1) == [false];
    assert BitsOf(c, DEGREE + 1)[1..] == BitsOf(Double(c), DEGREE);
    assert (WordBits(c) + [false])[1..] == WordBits(c)[1..] + [false];
  }

  lemma FirstBit(c: bv16)
    ensures WordBits(c)[0] == Top(c)
  {
    hide Top, Double;
  }

  lemma FourBits(c: bv16)
    ensures var c1 := Double(c);
            var c2 := Double(c1);
            var c3 := Double(c2);
            BitsOf(c, 4) == [Top(c), Top(c1), Top(c2), Top(c3)] && Doubles(c, 4) == Double(c3)
  {
    hide Top, Double;
    FourDoubles(c);
    hide Doubles;
    var c1 := Double(c);
    var c2 := Double(c1);
    assert BitsOf(c1, 3) == [Top(c1)] + BitsOf(c2, 2);
    assert BitsOf(c2, 2) == [Top(c2)] + BitsOf(Double(c2), 1);
    assert BitsOf(Double(c2), 1) == [Top(Double(c2))] + [];
  }

  lemma DivisorWord()
    ensures Double(0x1021) == 0x2042 && Double(0x2042) == 0x4084 && Double(0x4084) == 0x8108 && Double(0x8108) == 0x0210
    ensures Double(0x0210) == 0x0420 && Double(0x0420) == 0x0840 && Double(0x0840) == 0x1080 && Double(0x1080) == 0x2100
    ensures Double(0x2100) == 0x4200 && Double(0x4200) == 0x8400 && Double(0x8400) == 0x0800 && Double(0x0800) == 0x1000
    ensures Double(0x1000) == 0x2000 && Double(0x2000) == 0x4000 && Double(0x4000) == 0x8000
    ensures Top(0x8108) && Top(0x8400) && Top(0x8000)
    ensures !Top(0x1021) && !Top(0x2042) && !Top(0x4084) && !Top(0x0210) && !Top(0x0420) && !Top(0x0840) && !Top(0x1080)
    ensures !Top(0x2100) && !Top(0x4200) && !Top(0x0800) && !Top(0x1000) && !Top(0x2000) && !Top(0x4000)
  {
  }

  /** The constant of the shift step is the divisor without its leading coefficient. */
  lemma DivisorBits()
    ensures WordBits(0x1021) == Divisor()[1..]
  {
    hide BitsOf, Top, Double, Doubles;
    DivisorWord();
    FourBits(0x1021);
    FourBits(0x0210);
    FourBits(0x2100);
    FourBits(0x1000);
    BitsOfMore(0x1021, 4, 12);
    BitsOfMore(0x0210, 4, 8);
    BitsOfMore(0x2100, 4, 4);
  }

  // ---------------------------------------------------------------------------
  // The register, bit by bit
  // ---------------------------------------------------------------------------

  /** One message bit enters at the top of the register. */
  function BitStep(c: bv16, bit: bool): bv16 {
    if Top(c) != bit then Xor(Double(c), 0x1021) else Double(c)
  }

  function BitSteps(c: bv16, bits: seq<bool>): bv16
    decreases |bits|
  {
    if bits == [] then c else BitSteps(BitStep(c, bits[0]), bits[1..])
  }

  lemma {:induction false} BitStepsConcat(c: bv16, x: seq<bool>, y: seq<bool>)
    ensures BitSteps(c, x + y) == BitSteps(BitSteps(c, x), y)
    decreases |x|
  {
    hide BitStep;
    if x == [] {
      assert x + y == y;
    } else {
      assert (x + y)[1..] == x[1..] + y;
      BitStepsConcat(BitStep(c, x[0]), x[1..], y);
    }
  }

  lemma ShiftDoubles(c: bv16)
    ensures Shift(c) == if Top(c) then Xor(Double(c), 0x1021) else Double(c)
  {
  }

  lemma XorSwap(a: bv16, b: bv16, k: bv16)
    ensures Xor(Xor(a, b), k) == Xor(Xor(a, k), b)
  {
  }

  /** Of a word added to the register, the shift step takes in the first bit and leaves the others. */
  lemma BitEnters(c: bv16, u: bv16)
    ensures Shift(Xor(c, u)) == Xor(BitStep(c, Top(u)), Double(u))
  {
    hide Shift, Xor, Top, Double;
    ShiftDoubles(Xor(c, u));
    DoubleXor(c, u);
    XorSwap(Double(c), Double(u), 0x1021);
  }

  lemma {:induction false} BitsEnter(c: bv16, u: bv16, n: nat)
    ensures ShiftedOn(Xor(c, u), n) == Xor(BitSteps(c, BitsOf(u, n)), Doubles(u, n))
    decreases n
  {
    hide Shift, Xor, Top, Double, BitStep;
    if n > 0 {
      BitEnters(c, u);
      BitsEnter(BitStep(c, Top(u)), Double(u), n - 1);
      assert BitsOf(u, n)[1..] == BitsOf(Double(u), n - 1);
    }
  }

  /** `Shifts`, counted from the other end. */
  function ShiftedOn(c: bv16, n: nat): bv16
    decreases n
  {
    if n == 0 then c else ShiftedOn(Shift(c), n - 1)
  }

  lemma {:induction false} SameShifts(c: bv16, n: nat)
    ensures ShiftedOn(c, n) == Shifts(c, n)
    decreases n
  {
    hide Shift;
    if n > 0 {
      SameShifts(Shift(c), n - 1);
      ShiftsAdd(c, 1, n - 1);
      assert Shifts(c, 1) == Shift(Shifts(c, 0));
    }
  }

  lemma NoneLeft(c: bv16, b: byte)
    ensures Up(b) << 8 == 0 && Xor(c, 0) == c
  {
  }

  /** The byte step takes in the eight bits in turn. */
  lemma ByteByBits(c: bv16, b: byte)
    ensures ByteStep(c, b) == BitSteps(c, ByteBits(b))
  {
    hide Xor, Up, Shifts, ShiftedOn, BitSteps, BitsOf, Doubles;
    SameShifts(Xor(c, Up(b)), 8);
    BitsEnter(c, Up(b), 8);
    EightDoubles(Up(b));
    NoneLeft(BitSteps(c, ByteBits(b)), b);
  }

  lemma {:induction false} MessageByBits(c: bv16, data: seq<byte>)
    ensures CrcFrom(c, data) == BitSteps(c, Bits(data))
    decreases |data|
  {
    hide ByteStep, BitStep, ByteBits;
    if data != [] {
      ByteByBits(c, data[0]);
      MessageByBits(ByteStep(c, data[0]), data[1..]);
      BitStepsConcat(c, ByteBits(data[0]), Bits(data[1..]));
    }
  }

  // ---------------------------------------------------------------------------
  // The register as a partial remainder
  // ---------------------------------------------------------------------------

  /** The dividend `t` as the division has left it: its first sixteen coefficients with the register added. */
  function Under(c: bv16, t: seq<bool>): (s: seq<bool>)
    requires |t| >= DEGREE
    ensures |s| == |t|
  {
    Plus(WordBits(c), t[..DEGREE]) + t[DEGREE..]
  }

  /** What a bit step makes of the register's bits. */
  function Moved(x: seq<bool>, lead: bool): (y: seq<bool>)
    requires |x| == DEGREE
    ensures |y| == DEGREE
  {
    var up := x[1..] + [false];
    if lead then Plus(up, Divisor()[1..]) else up
  }

  lemma BitStepMoves(c: bv16, bit: bool)
    ensures WordBits(BitStep(c, bit)) == Moved(WordBits(c), WordBits(c)[0] != bit)
  {
    hide Top, Double, Xor, BitsOf, Divisor;
    FirstBit(c);
    DoubledBits(c);
    DivisorBits();
    BitsOfXor(Double(c), 0x1021, DEGREE);
  }

  lemma DivisionStep(c: bv16, t: seq<bool>)
    requires |t| > DEGREE
    ensures Remainder(Under(c, t)) == Remainder(Under(BitStep(c, t[0]), t[1..]))
  {
    hide BitStep, WordBits, Moved, Divisor, Plus;
    BitStepMoves(c, t[0]);
    Cancelled(WordBits(c), t);
  }

  /** One step of the division, on the bits alone. */
  lemma Cancelled(x: seq<bool>, t: seq<bool>)
    requires |x| == DEGREE < |t|
    ensures var s := Plus(x, t[..DEGREE]) + t[DEGREE..];
            var rest := Plus(Moved(x, x[0] != t[0]), t[1..][..DEGREE]) + t[1..][DEGREE..];
            rest == if s[0] then Plus(s[..DEGREE + 1], Divisor())[1..] + s[DEGREE + 1..] else s[1..]
  {
    hide Divisor;
    var s := Plus(x, t[..DEGREE]) + t[DEGREE..];
    var y, u := Moved(x, x[0] != t[0]), t[1..];
    var rest := Plus(y, u[..DEGREE]) + u[DEGREE..];
    if s[0] {
      var p := Plus(s[..DEGREE + 1], Divisor());
      assert forall i :: 0 <= i < DEGREE ==> p[1..][i] == p[i + 1] == (s[i + 1] != Divisor()[i + 1]);
      assert rest == p[1..] + s[DEGREE + 1..];
    } else {
      assert rest == s[1..];
    }
  }

  lemma {:induction false} DivisionFollowsRegister(c: bv16, bits: seq<bool>)
    ensures Remainder(Under(c, bits + Zeros(DEGREE))) == WordBits(BitSteps(c, bits))
    decreases |bits|
  {
    hide BitStep, WordBits;
    var t := bits + Zeros(DEGREE);
    if bits == [] {
      assert Under(c, t) == WordBits(c);
    } else {
      DivisionStep(c, t);
      assert t[1..] == bits[1..] + Zeros(DEGREE);
      DivisionFollowsRegister(BitStep(c, bits[0]), bits[1..]);
    }
  }

  /** The check value of a message is its remainder. */
  lemma CrcIsRemainder(data: seq<byte>)
    ensures WordBits(Crc16(data)) == Remainder(Bits(data) + Zeros(DEGREE))
  {
    MessageByBits(0, data);
    DivisionFollowsRegister(0, Bits(data));
    BitsOfZero(DEGREE);
    hide BitsOf;
    assert Under(0, Bits(data) + Zeros(DEGREE)) == Bits(data) + Zeros(DEGREE);
  }

  /** Its two bytes, as they go over the wire, are the remainder's bits in order. */
  lemma CheckBytesAreRemainder(data: seq<byte>)
    ensures Bits(CrcBytes(Crc16(data))) == Remainder(Bits(data) + Zeros(DEGREE))
  {
    hide Hi, Lo, WordBits, ByteBits, Remainder;
    var c := Crc16(data);
    CrcIsRemainder(data);
    HalvesOfWord(c);
    assert CrcBytes(c)[1..] == [Lo(c)] && [Lo(c)][1..] == [];
    assert Bits([Lo(c)]) == ByteBits(Lo(c)) + [];
  }

  lemma HalvesOfWord(c: bv16)
    ensures ByteBits(Hi(c)) + ByteBits(Lo(c)) == WordBits(c)
  {
    hide BitsOf, Doubles, Hi, Lo, Up, Word, Xor, Double, Top;
    BitsOfMore(c, 8, 8);
    EightDoubles(c);
    TwoHalves(c);
    BitsOfXor(Up(Hi(c)), Word(Lo(c)), 8);
    LowHalfLater(Lo(c));
    assert BitsOf(c, 8) == ByteBits(Hi(c));
  }

  lemma TwoHalves(c: bv16)
    ensures c == Xor(Up(Hi(c)), Word(Lo(c))) && c << 8 == Up(Lo(c))
  {
  }

  lemma LowHalfLater(b: byte)
    ensures BitsOf(Word(b), 8) == Zeros(8)
  {
    hide BitsOf, Top, Double, Doubles, Word;
    var w := Word(b);
    NoTopBit(b);
    FourBits(w);
    FourBits(Doubles(w, 4));
    BitsOfMore(w, 4, 4);
  }

  lemma NoTopBit(b: byte)
    ensures var w := Word(b);
            var w1 := Double(w);
            var w2 := Double(w1);
            var w3 := Double(w2);
            var w4 := Double(w3);
            var w5 := Double(w4);
            var w6 := Double(w5);
            && !Top(w) && !Top(w1) && !Top(w2) && !Top(w3) && !Top(w4) && !Top(w5) && !Top(w6) && !Top(Double(w6))
  {
  }
}
