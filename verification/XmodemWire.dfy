/** What goes over the wire, byte by byte: the frames, the answer to every packet, and what a whole series of
    replies or packets leads to. The control bytes are written out. */
module XmodemWire {
  import opened Bytes
  import opened Crc
  import opened CrcPolynomial
  import opened Wires
  import opened Xmodem
  import XmodemStream

  // ---------------------------------------------------------------------------
  // Frames
  // ---------------------------------------------------------------------------

  lemma DigitsLow()
    ensures ByteStep(0, 0x31) == 0x2672
    ensures ByteStep(0x2672, 0x32) == 0x20B5
    ensures ByteStep(0x20B5, 0x33) == 0x9752
  {
  }

  lemma DigitsMiddle()
    ensures ByteStep(0x9752, 0x34) == 0xD789
    ensures ByteStep(0xD789, 0x35) == 0x546C
    ensures ByteStep(0x546C, 0x36) == 0x20E4
  {
  }

  lemma DigitsHigh()
    ensures ByteStep(0x20E4, 0x37) == 0x86D6
    ensures ByteStep(0x86D6, 0x38) == 0x9015
    ensures ByteStep(0x9015, 0x39) == 0x31C3
  {
  }

  /** The standard check: the CRC of the digits 1 to 9. */
  lemma DigitsCheck()
    ensures Crc16([0x31, 0x32, 0x33, 0x34, 0x35, 0x36, 0x37, 0x38, 0x39]) == 0x31C3
  {
    hide ByteStep, CrcFrom;
    var s: seq<byte> := [0x31, 0x32, 0x33, 0x34, 0x35, 0x36, 0x37, 0x38, 0x39];
    DigitsLow();
    DigitsMiddle();
    DigitsHigh();
    FirstThree(0, 0x31, 0x32, 0x33, s[3..]);
    FirstThree(0x9752, 0x34, 0x35, 0x36, s[6..]);
    FirstThree(0x20E4, 0x37, 0x38, 0x39, []);
    FirstByte(0x31C3, []);
    assert s == [0x31, 0x32, 0x33] + s[3..] && s[3..] == [0x34, 0x35, 0x36] + s[6..] && s[6..] == [0x37, 0x38, 0x39] + [];
  }

  lemma FirstThree(c: bv16, x: byte, y: byte, z: byte, rest: seq<byte>)
    ensures CrcFrom(c, [x, y, z] + rest) == CrcFrom(ByteStep(ByteStep(ByteStep(c, x), y), z), rest)
  {
    hide ByteStep, CrcFrom;
    var s := [x, y, z] + rest;
    assert s[1..] == [y, z] + rest && s[1..][1..] == [z] + rest && s[1..][1..][1..] == rest;
    FirstByte(c, s);
    FirstByte(ByteStep(c, x), s[1..]);
    FirstByte(ByteStep(ByteStep(c, x), y), s[1..][1..]);
  }

  lemma FirstByte(c: bv16, s: seq<byte>)
    ensures CrcFrom(c, s) == if s == [] then c else CrcFrom(ByteStep(c, s[0]), s[1..])
  {
    hide ByteStep;
  }

  /** The sum of the bytes, in sixteen bits: that of a block cannot overflow. */
  function WideSum(s: seq<byte>): bv16 {
    if s == [] then 0 else Widen(s[0], WideSum(s[1..]))
  }

  function Widen(b: byte, c: bv16): bv16 {
    Word(b) + c
  }

  function Plus8(a: byte, b: byte): byte {
    a + b
  }

  lemma Plus8Laws(a: byte, b: byte, c: byte)
    ensures Plus8(Plus8(a, b), c) == Plus8(a, Plus8(b, c)) && Plus8(a, 0) == a && Plus8(0, a) == a
  {
  }

  lemma SumNone()
    ensures Sum8([]) == 0
  {
  }

  lemma SumSnoc(s: seq<byte>, b: byte)
    ensures Sum8(s + [b]) == Plus8(Sum8(s), b)
  {
    assert (s + [b])[..|s|] == s;
  }

  lemma {:induction false} SumConcat(x: seq<byte>, y: seq<byte>)
    ensures Sum8(x + y) == Plus8(Sum8(x), Sum8(y))
    decreases |y|
  {
    hide Sum8, Plus8;
    if y == [] {
      assert x + y == x;
      SumNone();
      Plus8Laws(Sum8(x), 0, 0);
    } else {
      var n := |y| - 1;
      assert y == y[..n] + [y[n]] && x + y == (x + y[..n]) + [y[n]];
      SumSnoc(y[..n], y[n]);
      SumSnoc(x + y[..n], y[n]);
      SumConcat(x, y[..n]);
      Plus8Laws(Sum8(x), Sum8(y[..n]), y[n]);
    }
  }

  lemma LowAdd(b: byte, c: bv16)
    ensures Lo(Widen(b, c)) == Plus8(b, Lo(c))
  {
  }

  /** The arithmetic checksum is the sum of the bytes modulo 256. */
  lemma {:induction false} SumIsLowByte(s: seq<byte>)
    ensures Sum8(s) == Lo(WideSum(s))
  {
    hide Sum8, Plus8, Lo, Widen;
    if s == [] {
      SumNone();
      assert Lo(0) == 0 by { LowZero(); }
    } else {
      SumIsLowByte(s[1..]);
      assert s == [s[0]] + s[1..] && [] + [s[0]] == [s[0]];
      SumSnoc([], s[0]);
      SumNone();
      Plus8Laws(s[0], 0, 0);
      SumConcat([s[0]], s[1..]);
      LowAdd(s[0], WideSum(s[1..]));
    }
  }

  lemma LowZero()
    ensures Lo(0) == 0
  {
  }

  /** A frame on the wire: 01, the number, its complement, the data, and two bytes whose bits are the remainder of
      the data; or in checksum mode the low byte of their sum. */
  lemma FrameOnWire(block: byte, chunk: seq<byte>, useCRC: bool) returns (ck: seq<byte>)
    ensures Frame(block, chunk, useCRC) == [0x01, block, 255 - block] + chunk + ck
    ensures useCRC ==> |ck| == 2 && Bits(ck) == Remainder(Bits(chunk) + Zeros(16))
    ensures !useCRC ==> ck == [Lo(WideSum(chunk))]
  {
    ck := Check(chunk, useCRC);
    if useCRC {
      CheckBytesAreRemainder(chunk);
    } else {
      SumIsLowByte(chunk);
    }
    hide Crc16, Remainder, Bits, Hi, Lo, WideSum, Sum8;
  }

  /** All of what a receiver that has no complaints gets of an empty file: one block of 1A, and 04. */
  lemma EmptyFileOnWire() returns (ck: seq<byte>)
    ensures XmodemStream.Stream([], 0, 1) == [0x01, 0x01, 0xFE] + Repeat(0x1A, 128) + ck + [0x04]
    ensures |ck| == 2 && Bits(ck) == Remainder(Bits(Repeat(0x1A, 128)) + Zeros(16))
  {
    var chunk := Repeat(0x1A, 128);
    ck := FrameOnWire(1, chunk, true);
    assert Chunk([], 0) == chunk;
    hide Frame, Chunk, Remainder, Bits;
    var f := Frame(1, chunk, true);
    assert XmodemStream.Stream([], 1, 2) == [EOT];
    assert XmodemStream.Stream([], 0, 1) == f + [EOT];
  }

  // ---------------------------------------------------------------------------
  // The sender: what a series of replies leads to
  // ---------------------------------------------------------------------------

  /** The index of the first byte that is in `set`, or |s|. */
  function First(s: seq<byte>, any: set<byte>): (n: nat)
    ensures n <= |s| && (forall k :: 0 <= k < n ==> s[k] !in any) && (n < |s| ==> s[n] in any)
  {
    if s == [] || s[0] in any then 0 else 1 + First(s[1..], any)
  }

  /** The sender takes one reply. */
  lemma Replied(data: seq<byte>, s: Sender, v: View)
    requires SenderOk(data, s) && !s.Stopped? && v.input != [] && (Written(data, s) == [] || v.room > 0)
    ensures SendRun(data, s, v) ==
            SendRun(data, SenderNext(data, s, v.input[0]),
                    if Written(data, s) == [] then v.Next() else v.Put(Written(data, s)).Next())
  {
    hide Written, SenderNext;
  }

  /** It can write nothing more, or gets no reply. */
  lemma Starved(data: seq<byte>, s: Sender, v: View)
    requires SenderOk(data, s) && !s.Stopped? && (v.input == [] || (Written(data, s) != [] && v.room == 0))
    ensures SendRun(data, s, v).result == Some(ErrIO)
    ensures Written(data, s) == [] ==> SendRun(data, s, v) == Run(Some(ErrIO), v)
  {
    hide Written, SenderNext;
  }

  lemma Over(data: seq<byte>, err: Option<Error>, v: View)
    ensures SendRun(data, Stopped(err), v) == Run(err, v)
  {
  }

  /** What the bytes after the call lead to, with `tries` of them rejected: 0x43 ('C') asks for CRC mode, 0x15 (NAK)
      for the sum, 0x18 (CAN) cancels; the eleventh other byte ends the wait, as does the end of the stream. */
  ghost predicate StartEnds(data: seq<byte>, tries: nat, v: View)
    requires tries <= 10
  {
    var n := First(v.input, {0x43, 0x15, 0x18});
    var run := SendRun(data, Starting(tries), v);
    var after := v.(input := if n < |v.input| then v.input[n + 1..] else []);
    if n <= 10 - tries && n < |v.input| then
      run == (if v.input[n] == 0x43 then SendRun(data, Sending(0, 1, 0, true), after)
              else if v.input[n] == 0x15 then SendRun(data, Sending(0, 1, 0, false), after)
              else Run(Some(ErrCanceled), after))
    else if |v.input| > 10 - tries then run == Run(Some(ErrNoStart), v.(input := v.input[11 - tries..]))
    else run == Run(Some(ErrIO), v.(input := []))
  }

  /** How the wait for the receiver ends. */
  lemma {:induction false} StartOutcome(data: seq<byte>, tries: nat, v: View)
    requires tries <= 10
    ensures StartEnds(data, tries, v)
    decreases 10 - tries
  {
    hide StartEnds, First, SendRun;
    if v.input == [] {
      StartStarved(data, tries, v);
    } else if v.input[0] in [0x43, 0x15, 0x18] {
      StartHeard(data, tries, v);
    } else {
      if tries < 10 {
        StartOutcome(data, tries + 1, v.Next());
      }
      StartRejected(data, tries, v);
    }
  }

  lemma StartStarved(data: seq<byte>, tries: nat, v: View)
    requires tries <= 10 && v.input == []
    ensures StartEnds(data, tries, v)
  {
    hide Frame, Chunk, Blocks, SendRun;
    Starved(data, Starting(tries), v);
  }

  lemma StartHeard(data: seq<byte>, tries: nat, v: View)
    requires tries <= 10 && v.input != [] && v.input[0] in [0x43, 0x15, 0x18]
    ensures StartEnds(data, tries, v)
  {
    hide Frame, Chunk, Blocks, SendRun;
    Replied(data, Starting(tries), v);
    if v.input[0] == 0x18 {
      Over(data, Some(ErrCanceled), v.Next());
    }
  }

  lemma StartRejected(data: seq<byte>, tries: nat, v: View)
    requires tries <= 10 && v.input != [] && v.input[0] !in [0x43, 0x15, 0x18]
    requires tries < 10 ==> StartEnds(data, tries + 1, v.Next())
    ensures StartEnds(data, tries, v)
  {
    hide Frame, Chunk, Blocks, SendRun;
    Replied(data, Starting(tries), v);
    FirstNext(v.input, {0x43, 0x15, 0x18});
    hide First;
    if tries == 10 {
      Over(data, Some(ErrNoStart), v.Next());
    }
  }

  lemma FirstNext(s: seq<byte>, any: set<byte>)
    requires s != []
    ensures First(s, any) == if s[0] in any then 0 else 1 + First(s[1..], any)
  {
  }

  /** `n` copies of a frame. */
  function Copies(frame: seq<byte>, n: nat): seq<byte> {
    if n == 0 then [] else frame + Copies(frame, n - 1)
  }

  /** How many times a block is sent, by the replies to come: until the first 06 (ACK) or 18 (CAN), at most
      ten times in all. */
  function Sendings(replies: seq<byte>, tries: nat): nat
    requires tries < 10
  {
    var n := First(replies, {0x06, 0x18});
    if n < 10 - tries then n + 1 else 10 - tries
  }

  /** The reply that settles a block: 06 moves on, 18 ends the transfer, and so does a tenth other reply. */
  function BlockEnd(data: seq<byte>, i: nat, block: byte, useCRC: bool, reply: byte, after: View): Run<Option<Error>>
    requires i < Blocks(data)
  {
    if reply == 0x06 then SendRun(data, AfterBlock(data, i, block, useCRC), after)
    else Run(Some(if reply == 0x18 then ErrCanceled else ErrNoAck), after)
  }

  lemma Settled(data: seq<byte>, i: nat, block: byte, tries: nat, useCRC: bool, reply: byte, after: View)
    requires i < Blocks(data) && tries < 10 && (reply == 0x06 || reply == 0x18 || tries == 9)
    ensures SendRun(data, SenderNext(data, Sending(i, block, tries, useCRC), reply), after) ==
            BlockEnd(data, i, block, useCRC, reply, after)
  {
    hide Frame, Chunk, Blocks, AfterBlock, SendRun;
    Over(data, Some(ErrCanceled), after);
    Over(data, Some(ErrNoAck), after);
  }

  /** How a block ends: every reply but ACK and CAN has the same frame sent again; ACK moves on, CAN ends the
      transfer, and so does a tenth other reply; without enough replies, or writes that succeed, it fails. */
  lemma {:induction false} BlockOutcome(data: seq<byte>, i: nat, block: byte, tries: nat, useCRC: bool, v: View)
    requires i < Blocks(data) && tries < 10
    ensures BlockEnds(data, i, block, tries, useCRC, v)
    decreases 10 - tries
  {
    hide Frame, Chunk, Blocks, AfterBlock, SendRun, First, BlockEnd, BlockEnds, SenderNext, Written;
    if v.room == 0 || v.input == [] || v.input[0] == 0x18 || v.input[0] == 0x06 || tries == 9 {
      BlockSettled(data, i, block, tries, useCRC, v);
    } else {
      BlockRefused(data, i, block, tries, useCRC, v);
      BlockOutcome(data, i, block, tries + 1, useCRC, v.Put(Frame(block, Chunk(data, i), useCRC)).Next());
      BlockRetried(data, i, block, tries, useCRC, v);
    }
  }

  lemma BlockWritten(data: seq<byte>, i: nat, block: byte, tries: nat, useCRC: bool)
    requires i < Blocks(data) && tries < 10
    ensures var w := Written(data, Sending(i, block, tries, useCRC));
            w != [] && w == Frame(block, Chunk(data, i), useCRC)
  {
  }

  lemma BlockSettled(data: seq<byte>, i: nat, block: byte, tries: nat, useCRC: bool, v: View)
    requires i < Blocks(data) && tries < 10
    requires v.room == 0 || v.input == [] || v.input[0] == 0x18 || v.input[0] == 0x06 || tries == 9
    ensures BlockEnds(data, i, block, tries, useCRC, v)
  {
    hide Frame, Chunk, Blocks, AfterBlock, SendRun, First, BlockEnd, SenderNext, Written;
    var s := Sending(i, block, tries, useCRC);
    BlockWritten(data, i, block, tries, useCRC);
    if v.room == 0 || v.input == [] {
      Starved(data, s, v);
    } else {
      FirstNext(v.input, {0x06, 0x18});
      assert Sendings(v.input, tries) == 1;
      hide Sendings;
      Replied(data, s, v);
      OneCopy(Written(data, s));
      Settled(data, i, block, tries, useCRC, v.input[0], v.Put(Written(data, s)).Next());
    }
  }

  lemma BlockRefused(data: seq<byte>, i: nat, block: byte, tries: nat, useCRC: bool, v: View)
    requires i < Blocks(data) && tries < 9 && v.input != [] && v.room > 0 && v.input[0] !in {0x06, 0x18}
    ensures SendRun(data, Sending(i, block, tries, useCRC), v) ==
            SendRun(data, Sending(i, block, tries + 1, useCRC), v.Put(Frame(block, Chunk(data, i), useCRC)).Next())
  {
    hide Frame, Chunk, Blocks, AfterBlock, SendRun, Written, SenderNext;
    BlockWritten(data, i, block, tries, useCRC);
    RefusedNext(data, i, block, tries, useCRC, v.input[0]);
    Replied(data, Sending(i, block, tries, useCRC), v);
  }

  lemma RefusedNext(data: seq<byte>, i: nat, block: byte, tries: nat, useCRC: bool, reply: byte)
    requires i < Blocks(data) && tries < 9 && reply !in {0x06, 0x18}
    ensures SenderNext(data, Sending(i, block, tries, useCRC), reply) == Sending(i, block, tries + 1, useCRC)
  {
    hide Frame, Chunk, Blocks, AfterBlock;
  }

  ghost predicate BlockEnds(data: seq<byte>, i: nat, block: byte, tries: nat, useCRC: bool, v: View)
    requires i < Blocks(data) && tries < 10
  {
    var n := Sendings(v.input, tries);
    var run := SendRun(data, Sending(i, block, tries, useCRC), v);
    if n <= |v.input| && n <= v.room then
      var after := View(v.input[n..], v.output + Copies(Frame(block, Chunk(data, i), useCRC), n), v.room - n);
      run == BlockEnd(data, i, block, useCRC, v.input[n - 1], after)
    else run.result == Some(ErrIO)
  }

  lemma BlockRetried(data: seq<byte>, i: nat, block: byte, tries: nat, useCRC: bool, v: View)
    requires i < Blocks(data) && tries < 9 && v.input != [] && v.room > 0 && v.input[0] !in {0x06, 0x18}
    requires var v' := v.Put(Frame(block, Chunk(data, i), useCRC)).Next();
             && SendRun(data, Sending(i, block, tries, useCRC), v) == SendRun(data, Sending(i, block, tries + 1, useCRC), v')
             && BlockEnds(data, i, block, tries + 1, useCRC, v')
    ensures BlockEnds(data, i, block, tries, useCRC, v)
  {
    hide Frame, Chunk, Blocks, SendRun, First, BlockEnd;
    FirstNext(v.input, {0x06, 0x18});
    var frame := Frame(block, Chunk(data, i), useCRC);
    var n := Sendings(v.Next().input, tries + 1);
    assert Sendings(v.input, tries) == n + 1;
    hide Sendings;
    if n <= |v.input| - 1 {
      DropOne(v.input, n);
    }
    MoreCopies(v.output, frame, n);
    hide Copies;
  }

  lemma DropOne(s: seq<byte>, n: nat)
    requires n < |s|
    ensures n > 0 ==> s[1..][n - 1] == s[n]
    ensures s[1..][n..] == s[n + 1..]
  {
  }

  lemma MoreCopies(x: seq<byte>, frame: seq<byte>, n: nat)
    ensures (x + frame) + Copies(frame, n) == x + Copies(frame, n + 1)
  {
    assert (x + frame) + Copies(frame, n) == x + (frame + Copies(frame, n));
  }

  lemma OneCopy(frame: seq<byte>)
    ensures Copies(frame, 1) == frame
  {
    assert Copies(frame, 0) == [];
  }

  function Announcements(replies: seq<byte>, tries: nat): nat
    requires tries < 10
  {
    var k := First(replies, {0x06});
    if k < 10 - tries then k + 1 else 10 - tries
  }

  /** How the end is announced: 04 (EOT) up to ten times until the first ACK, which is success. */
  ghost predicate EndEnds(data: seq<byte>, tries: nat, v: View)
    requires tries < 10
  {
    var n := Announcements(v.input, tries);
    var run := SendRun(data, Ending(tries), v);
    if n <= |v.input| && n <= v.room then
      run == Run(if v.input[n - 1] == 0x06 then None else Some(ErrNoAck),
                 View(v.input[n..], v.output + Repeat(0x04, n), v.room - n))
    else run.result == Some(ErrIO)
  }

  lemma {:induction false} EndOutcome(data: seq<byte>, tries: nat, v: View)
    requires tries < 10
    ensures EndEnds(data, tries, v)
    decreases 10 - tries
  {
    hide SendRun, EndEnds, First;
    if v.room == 0 || v.input == [] || v.input[0] == 0x06 || tries == 9 {
      EndSettled(data, tries, v);
    } else {
      EndOutcome(data, tries + 1, v.Put([0x04]).Next());
      EndRetried(data, tries, v);
    }
  }

  lemma EndSettled(data: seq<byte>, tries: nat, v: View)
    requires tries < 10 && (v.room == 0 || v.input == [] || v.input[0] == 0x06 || tries == 9)
    ensures EndEnds(data, tries, v)
  {
    hide SendRun, First;
    var s := Ending(tries);
    if v.room == 0 || v.input == [] {
      Starved(data, s, v);
    } else {
      FirstNext(v.input, {0x06});
      assert Announcements(v.input, tries) == 1;
      hide Announcements;
      Replied(data, s, v);
      Over(data, None, v.Put([0x04]).Next());
      Over(data, Some(ErrNoAck), v.Put([0x04]).Next());
      OneMore(v.output, 0);
    }
  }

  lemma EndRetried(data: seq<byte>, tries: nat, v: View)
    requires tries < 9 && v.input != [] && v.room > 0 && v.input[0] != 0x06
    requires EndEnds(data, tries + 1, v.Put([0x04]).Next())
    ensures EndEnds(data, tries, v)
  {
    hide SendRun, First;
    FirstNext(v.input, {0x06});
    var n := Announcements(v.Next().input, tries + 1);
    assert Announcements(v.input, tries) == n + 1;
    hide Announcements;
    Replied(data, Ending(tries), v);
    OneMore(v.output, n);
    if n <= |v.input| - 1 {
      DropOne(v.input, n);
    }
    hide Repeat;
  }

  lemma OneMore(x: seq<byte>, n: nat)
    ensures (x + [0x04]) + Repeat(0x04, n) == x + Repeat(0x04, n + 1)
    ensures x + [0x04] == x + Repeat(0x04, 1)
  {
  }

  // ---------------------------------------------------------------------------
  // The receiver: the answer to every packet
  // ---------------------------------------------------------------------------

  /** The 132 bytes after SOH are an intact frame of that number. */
  ghost predicate Intact(number: byte, packet: seq<byte>)
    requires |packet| == FRAME_REST
  {
    [0x01] + packet == Frame(number, FrameData(packet), true)
  }

  /** They carry that number and its complement, whatever follows. */
  predicate Numbered(number: byte, packet: seq<byte>)
    requires |packet| == FRAME_REST
  {
    packet[0] == number && packet[1] == 255 - number
  }

  lemma IntactExactly(number: byte, packet: seq<byte>)
    requires |packet| == FRAME_REST
    ensures Intact(number, packet) <==> Numbered(number, packet) && GoodCheck(packet)
  {
    var data := FrameData(packet);
    ResidueIsZero(data, packet[130], packet[131]);
    hide Crc16, Join, CrcBytes, FrameData;
    assert |data| == 128 by { DataSize(packet); }
    XmodemStream.FrameLayout(number, data);
    FrameSoh(number, data);
    SplitPacket(packet);
    var ck := CrcBytes(Crc16(data));
    var f := Frame(number, data, true);
    assert f == [0x01] + f[1..];
    assert ([0x01] + packet)[1..] == packet;
    if Intact(number, packet) {
      CheckSize(data);
      XmodemStream.RestParts(number, 255 - number, data, ck);
      assert [packet[130], packet[131]] == ck;
    }
    hide Frame;
    if Numbered(number, packet) && [packet[130], packet[131]] == ck {
      assert packet == f[1..];
    }
  }

  lemma DataSize(packet: seq<byte>)
    requires |packet| == FRAME_REST
    ensures |FrameData(packet)| == 128
  {
  }

  lemma CheckSize(data: seq<byte>)
    ensures |CrcBytes(Crc16(data))| == 2
  {
    hide Crc16;
  }

  lemma FrameSoh(number: byte, data: seq<byte>)
    ensures Frame(number, data, true)[0] == 0x01
  {
    hide Crc16;
  }

  lemma SplitPacket(packet: seq<byte>)
    requires |packet| == FRAME_REST
    ensures packet == [packet[0], packet[1]] + (FrameData(packet) + [packet[130], packet[131]])
  {
  }

  lemma NumberedIsGood(packet: seq<byte>)
    requires |packet| == FRAME_REST
    ensures GoodHeader(packet) <==> Numbered(packet[0], packet)
  {
    Complement(packet[0], packet[1]);
  }

  lemma Complement(a: byte, b: byte)
    ensures a == 255 - b <==> b == 255 - a
  {
  }

  /** An intact frame of the expected number is appended and acknowledged with 06, or, if it does not fit, answered
      with 18 18, which ends the transfer. A packet that carries the number before is acknowledged and dropped, and
      every other packet is refused with 15. */
  lemma AnswerExactly(limit: int, buf: seq<byte>, expected: byte, packet: seq<byte>)
    requires |packet| == FRAME_REST
    ensures var data := FrameData(packet);
            Judge(limit, buf, expected, packet) ==
            if Intact(expected, packet) then
              if limit > 0 && |buf| + 128 > limit then (Finished(buf + data, Failed(ErrTooBig)), [0x18, 0x18])
              else (Idle(buf + data, expected + 1), [0x06])
            else (Idle(buf, expected), if Numbered(expected - 1, packet) then [0x06] else [0x15])
  {
    IntactExactly(expected, packet);
    NumberedIsGood(packet);
    DataSize(packet);
    hide Intact, GoodCheck, GoodHeader, FrameData;
    Predecessor(expected);
  }

  lemma Predecessor(b: byte)
    ensures b != b - 1
  {
  }

  // ---------------------------------------------------------------------------
  // The receiver: a whole upload
  // ---------------------------------------------------------------------------

  /** What can come: a byte that is none of 01, 04 and 18; or 01 and a packet. */
  datatype Item = Noise(b: byte) | Packet(packet: seq<byte>)

  /** How it can end: with 04, with 18, or in the middle. */
  datatype Ending = AtEot | AtCan | Cut

  predicate Legal(item: Item) {
    match item
    case Noise(b) => b !in {0x01, 0x04, 0x18}
    case Packet(packet) => |packet| == FRAME_REST
  }

  ghost predicate AllLegal(items: seq<Item>) {
    forall k :: 0 <= k < |items| ==> Legal(items[k])
  }

  function Sent(items: seq<Item>): seq<byte> {
    if items == [] then []
    else (match items[0] case Noise(b) => [b] case Packet(packet) => [0x01] + packet) + Sent(items[1..])
  }

  function LastBytes(ending: Ending): seq<byte> {
    match ending
    case AtEot => [0x04]
    case AtCan => [0x18]
    case Cut => []
  }

  ghost predicate Wanted(item: Item, expected: byte)
    requires Legal(item)
  {
    item.Packet? && Intact(expected, item.packet)
  }

  /** The blocks among the packets: each is intact and has the number after that of the one before. */
  ghost function BlocksIn(items: seq<Item>, expected: byte): seq<byte>
    requires AllLegal(items)
  {
    if items == [] then []
    else if Wanted(items[0], expected) then FrameData(items[0].packet) + BlocksIn(items[1..], expected + 1)
    else BlocksIn(items[1..], expected)
  }

  /** One answer to each packet. */
  ghost function Answers(items: seq<Item>, expected: byte): seq<byte>
    requires AllLegal(items)
  {
    if items == [] then []
    else if Wanted(items[0], expected) then [0x06] + Answers(items[1..], expected + 1)
    else if items[0].Packet? then
      [if Numbered(expected - 1, items[0].packet) then 0x06 else 0x15] + Answers(items[1..], expected)
    else Answers(items[1..], expected)
  }

  lemma NoiseIgnored(limit: int, buf: seq<byte>, expected: byte, b: byte, v: View)
    requires b !in {0x01, 0x04, 0x18} && v.input != [] && v.input[0] == b
    ensures ReceiveRun(limit, Idle(buf, expected), v) == ReceiveRun(limit, Idle(buf, expected), v.Next())
  {
    hide Judge;
  }

  lemma PacketAnswered(limit: int, buf: seq<byte>, expected: byte, packet: seq<byte>, more: seq<byte>, v: View)
    requires |packet| == FRAME_REST && v.input == [0x01] + packet + more
    ensures var (r, w) := Judge(limit, buf, expected, packet);
            ReceiveRun(limit, Idle(buf, expected), v) == ReceiveRun(limit, r, v.(input := more).PutIfOpen(w))
  {
    hide Judge;
    assert v.Next().input == packet + more;
    assert ReceiveRun(limit, Idle(buf, expected), v) == ReceiveRun(limit, Framing(buf, expected, []), v.Next());
    FrameAbsorbed(limit, buf, expected, [], v.Next());
    assert [] + (packet + more)[..FRAME_REST] == packet;
    assert (packet + more)[FRAME_REST..] == more;
  }

  lemma Ends(limit: int, buf: seq<byte>, expected: byte, ending: Ending, v: View)
    requires v.input == LastBytes(ending) && v.room > 0
    ensures ReceiveRun(limit, Idle(buf, expected), v) ==
            match ending
            case AtEot => Run(Got(Trim(buf)), v.Next().Put([0x06]))
            case AtCan => Run(Failed(ErrCanceled), v.Next())
            case Cut => Run(Failed(ErrIO), v)
  {
    hide Judge;
    if ending.AtEot? {
      assert ReceiverNext(limit, Idle(buf, expected), 0x04) == (Finished(buf, Got(Trim(buf))), [ACK]);
    } else if ending.AtCan? {
      assert ReceiverNext(limit, Idle(buf, expected), 0x18) == (Finished(buf, Failed(ErrCanceled)), []);
    }
  }

  /** What an upload comes to: its result, the bytes it leaves and those it has been answered with. */
  ghost predicate Heard(limit: int, buf: seq<byte>, expected: byte, items: seq<Item>, ending: Ending, v: View)
    requires AllLegal(items)
  {
    var run := ReceiveRun(limit, Idle(buf, expected), v);
    var all := buf + BlocksIn(items, expected);
    && run.wire.input == []
    && run.result == (match ending case AtEot => Got(Trim(all)) case AtCan => Failed(ErrCanceled) case Cut => Failed(ErrIO))
    && run.wire.output == v.output + Answers(items, expected) + if ending.AtEot? then [0x06] else []
  }

  lemma HeardEnd(limit: int, buf: seq<byte>, expected: byte, ending: Ending, v: View)
    requires v.input == LastBytes(ending) && v.room > 0
    ensures Heard(limit, buf, expected, [], ending, v)
  {
    hide ReceiveRun;
    Ends(limit, buf, expected, ending, v);
    assert buf + BlocksIn([], expected) == buf && v.output + Answers([], expected) == v.output;
  }

  lemma HeardNoise(limit: int, buf: seq<byte>, expected: byte, items: seq<Item>, ending: Ending, v: View, v': View)
    requires AllLegal(items) && items != [] && AllLegal(items[1..]) && items[0].Noise? && v'.output == v.output
    requires ReceiveRun(limit, Idle(buf, expected), v) == ReceiveRun(limit, Idle(buf, expected), v')
    requires Heard(limit, buf, expected, items[1..], ending, v')
    ensures Heard(limit, buf, expected, items, ending, v)
  {
    hide ReceiveRun, Intact, Numbered, FrameData, Trim;
  }

  lemma HeardBlock(limit: int, buf: seq<byte>, expected: byte, items: seq<Item>, ending: Ending, v: View, v': View)
    requires AllLegal(items) && items != [] && AllLegal(items[1..]) && Wanted(items[0], expected)
    requires v'.output == v.output + [0x06]
    requires ReceiveRun(limit, Idle(buf, expected), v) ==
             ReceiveRun(limit, Idle(buf + FrameData(items[0].packet), expected + 1), v')
    requires Heard(limit, buf + FrameData(items[0].packet), expected + 1, items[1..], ending, v')
    ensures Heard(limit, buf, expected, items, ending, v)
  {
    hide ReceiveRun, Intact, Numbered, FrameData, Trim;
    var data, rest := FrameData(items[0].packet), items[1..];
    assert (buf + data) + BlocksIn(rest, expected + 1) == buf + (data + BlocksIn(rest, expected + 1));
    assert (v.output + [0x06]) + Answers(rest, expected + 1) == v.output + ([0x06] + Answers(rest, expected + 1));
  }

  lemma HeardOther(limit: int, buf: seq<byte>, expected: byte, items: seq<Item>, ending: Ending, v: View, v': View)
    requires AllLegal(items) && items != [] && AllLegal(items[1..]) && items[0].Packet? && !Wanted(items[0], expected)
    requires v'.output == v.output + [if Numbered(expected - 1, items[0].packet) then 0x06 else 0x15]
    requires ReceiveRun(limit, Idle(buf, expected), v) == ReceiveRun(limit, Idle(buf, expected), v')
    requires Heard(limit, buf, expected, items[1..], ending, v')
    ensures Heard(limit, buf, expected, items, ending, v)
  {
    hide ReceiveRun, Intact, Numbered, FrameData, Trim;
    var rest := items[1..];
    var a: seq<byte> := [if Numbered(expected - 1, items[0].packet) then 0x06 else 0x15];
    assert (v.output + a) + Answers(rest, expected) == v.output + (a + Answers(rest, expected));
  }

  /** Whatever comes before the end, and however it is damaged, repeated or out of order: the upload is the blocks
      among it, less trailing SUB bytes, and every packet gets its one answer. */
  lemma {:induction false} UploadHeard(limit: int, buf: seq<byte>, expected: byte, items: seq<Item>, ending: Ending,
                                       v: View)
    requires AllLegal(items) && v.input == Sent(items) + LastBytes(ending) && v.room > |items|
    requires limit <= 0 || |buf + BlocksIn(items, expected)| <= limit
    ensures Heard(limit, buf, expected, items, ending, v)
    decreases |items|
  {
    hide ReceiveRun, Intact, Numbered, FrameData, Judge, Heard, Answers;
    if items == [] {
      assert v.input == LastBytes(ending);
      HeardEnd(limit, buf, expected, ending, v);
    } else {
      var item, rest := items[0], items[1..];
      var more := Sent(rest) + LastBytes(ending);
      if item.Noise? {
        assert v.input == [item.b] + more;
        NoiseIgnored(limit, buf, expected, item.b, v);
        assert v.Next().input == more;
        UploadHeard(limit, buf, expected, rest, ending, v.Next());
        HeardNoise(limit, buf, expected, items, ending, v, v.Next());
      } else {
        var packet := item.packet;
        assert v.input == [0x01] + packet + more;
        PacketHeard(limit, buf, expected, items, ending, more, v);
        var (r, w) := Judge(limit, buf, expected, packet);
        var v' := v.(input := more).PutIfOpen(w);
        if Wanted(item, expected) {
          UploadHeard(limit, buf + FrameData(packet), expected + 1, rest, ending, v');
          HeardBlock(limit, buf, expected, items, ending, v, v');
        } else {
          UploadHeard(limit, buf, expected, rest, ending, v');
          HeardOther(limit, buf, expected, items, ending, v, v');
        }
      }
    }
  }

  /** What a packet at the head of an upload that fits does. */
  lemma PacketHeard(limit: int, buf: seq<byte>, expected: byte, items: seq<Item>, ending: Ending, more: seq<byte>,
                    v: View)
    requires AllLegal(items) && items != [] && items[0].Packet? && v.room > 0
    requires v.input == [0x01] + items[0].packet + more
    requires limit <= 0 || |buf + BlocksIn(items, expected)| <= limit
    ensures var packet := items[0].packet;
            var (r, w) := Judge(limit, buf, expected, packet);
            var v' := v.(input := more).PutIfOpen(w);
            && ReceiveRun(limit, Idle(buf, expected), v) == ReceiveRun(limit, r, v')
            && v'.room == v.room - 1
            && if Wanted(items[0], expected) then
                 && r == Idle(buf + FrameData(packet), expected + 1) && v'.output == v.output + [0x06]
                 && (buf + FrameData(packet)) + BlocksIn(items[1..], expected + 1) == buf + BlocksIn(items, expected)
               else
                 && r == Idle(buf, expected)
                 && v'.output == v.output + [if Numbered(expected - 1, packet) then 0x06 else 0x15]
                 && BlocksIn(items[1..], expected) == BlocksIn(items, expected)
  {
    hide ReceiveRun, Intact, Numbered, FrameData, Judge;
    var packet := items[0].packet;
    PacketAnswered(limit, buf, expected, packet, more, v);
    AnswerExactly(limit, buf, expected, packet);
    DataSize(packet);
    if Wanted(items[0], expected) {
      assert |BlocksIn(items, expected)| >= 128;
      assert (buf + FrameData(packet)) + BlocksIn(items[1..], expected + 1) ==
             buf + (FrameData(packet) + BlocksIn(items[1..], expected + 1));
    }
  }

  /** A whole call: it opens with 0x43 ('C'), and then hears the upload from block 1 on. */
  lemma CallHeard(limit: int, items: seq<Item>, ending: Ending, v: View)
    requires AllLegal(items) && v.input == Sent(items) + LastBytes(ending) && v.room > |items| + 1
    requires limit <= 0 || |BlocksIn(items, 1)| <= limit
    ensures var run := ReceiveCall(limit, v);
            var all := BlocksIn(items, 1);
            && run.wire.input == []
            && run.result == (match ending case AtEot => Got(Trim(all)) case AtCan => Failed(ErrCanceled) case Cut => Failed(ErrIO))
            && run.wire.output == v.output + [0x43] + Answers(items, 1) + if ending.AtEot? then [0x06] else []
  {
    hide Intact, Numbered, FrameData, Judge, ReceiveRun;
    assert [] + BlocksIn(items, 1) == BlocksIn(items, 1);
    UploadHeard(limit, [], 1, items, ending, v.Put([0x43]));
  }
}
