/** XMODEM-CRC file transfer. The sender and the receiver are specified as state machines over the
    bytes they read; `Send` and `Receive` are the loops, proved to run those machines. */
module Xmodem {
  import opened Bytes
  import opened Crc
  import opened Wires

  const SOH: byte := 0x01
  const EOT: byte := 0x04
  const ACK: byte := 0x06
  const NAK: byte := 0x15
  const CAN: byte := 0x18
  const SUB: byte := 0x1A
  const START: byte := 0x43  // 'C': the receiver asks for CRC mode

  const MAX_RETRIES := 10
  const BLOCK := 128

  datatype Error = ErrCanceled | ErrNoStart | ErrNoAck | ErrTooBig | ErrIO

  datatype Received = Got(data: seq<byte>) | Failed(error: Error)

  /** What a finished call returned, and how it left the connection. */
  datatype Run<+R> = Run(result: R, wire: View)

  // ---------------------------------------------------------------------------
  // Blocks and frames
  // ---------------------------------------------------------------------------

  /** At least one block is sent, even for an empty file. */
  function BlockCount(len: nat): (n: nat)
    ensures n >= 1
    ensures BLOCK * (n - 1) <= len <= BLOCK * n
    ensures len > 0 ==> BLOCK * (n - 1) < len
  {
    if len == 0 then 1 else (len + 127) / 128
  }

  function Blocks(data: seq<byte>): nat {
    BlockCount(|data|)
  }

  function Chunk(data: seq<byte>, i: nat): (c: seq<byte>)
    requires i < Blocks(data)
    ensures |c| == BLOCK
  {
    var lo := BLOCK * i;
    var hi := if lo + BLOCK <= |data| then lo + BLOCK else |data|;
    data[lo..hi] + Repeat(SUB, BLOCK - (hi - lo))
  }

  /** The payload as the blocks carry it, filled up with SUB to a whole number of blocks. */
  function Padded(data: seq<byte>): (p: seq<byte>)
    ensures |p| == BLOCK * Blocks(data)
  {
    data + Repeat(SUB, BLOCK * Blocks(data) - |data|)
  }

  lemma ChunkOfPadded(data: seq<byte>, i: nat)
    requires i < Blocks(data)
    ensures Chunk(data, i) == Padded(data)[BLOCK * i..BLOCK * i + BLOCK]
  {
  }

  /** The arithmetic checksum of the original XMODEM. */
  function Sum8(s: seq<byte>): byte {
    if s == [] then 0 else Sum8(s[..|s| - 1]) + s[|s| - 1]
  }

  function Check(chunk: seq<byte>, useCRC: bool): seq<byte> {
    if useCRC then CrcBytes(Crc16(chunk)) else [Sum8(chunk)]
  }

  function Frame(block: byte, chunk: seq<byte>, useCRC: bool): (f: seq<byte>)
    ensures |f| == 3 + |chunk| + if useCRC then 2 else 1
    ensures f[0] == SOH
  {
    [SOH, block, 255 - block] + chunk + Check(chunk, useCRC)
  }

  // ---------------------------------------------------------------------------
  // The sender
  // ---------------------------------------------------------------------------

  /** Where the sender waits for its next reply byte. `tries` counts the replies this wait has
      already rejected. */
  datatype Sender =
    | Starting(tries: nat)
    | Sending(i: nat, block: byte, tries: nat, useCRC: bool)
    | Ending(tries: nat)
    | Stopped(err: Option<Error>)

  ghost predicate SenderOk(data: seq<byte>, s: Sender) {
    match s
    case Starting(tries) => tries <= MAX_RETRIES
    case Sending(i, _, tries, _) => i < Blocks(data) && tries < MAX_RETRIES
    case Ending(tries) => tries < MAX_RETRIES
    case Stopped(_) => true
  }

  /** What the sender writes on entering a state, before it reads. */
  function Written(data: seq<byte>, s: Sender): seq<byte>
    requires SenderOk(data, s)
  {
    match s
    case Starting(_) => []
    case Sending(i, block, _, useCRC) => Frame(block, Chunk(data, i), useCRC)
    case Ending(_) => [EOT]
    case Stopped(_) => []
  }

  function AfterBlock(data: seq<byte>, i: nat, block: byte, useCRC: bool): Sender {
    if i + 1 < Blocks(data) then Sending(i + 1, block + 1, 0, useCRC) else Ending(0)
  }

  function SenderNext(data: seq<byte>, s: Sender, b: byte): (s': Sender)
    requires SenderOk(data, s)
    ensures SenderOk(data, s')
  {
    match s
    case Starting(tries) =>
      if b == START then Sending(0, 1, 0, true)
      else if b == NAK then Sending(0, 1, 0, false)
      else if b == CAN then Stopped(Some(ErrCanceled))
      else if tries >= MAX_RETRIES then Stopped(Some(ErrNoStart))
      else Starting(tries + 1)
    case Sending(i, block, tries, useCRC) =>
      if b == ACK then AfterBlock(data, i, block, useCRC)
      else if b == CAN then Stopped(Some(ErrCanceled))
      else if tries + 1 < MAX_RETRIES then Sending(i, block, tries + 1, useCRC)
      else Stopped(Some(ErrNoAck))
    case Ending(tries) =>
      if b == ACK then Stopped(None)
      else if tries + 1 < MAX_RETRIES then Ending(tries + 1)
      else Stopped(Some(ErrNoAck))
    case Stopped(_) => s
  }

  /** The sender's run from state `s` on connection `v`. */
  function SendRun(data: seq<byte>, s: Sender, v: View): Run<Option<Error>>
    requires SenderOk(data, s)
    decreases |v.input|
  {
    var w := Written(data, s);
    if s.Stopped? then Run(s.err, v)
    else if w != [] && v.room == 0 then Run(Some(ErrIO), v)
    else
      var v' := if w == [] then v else v.Put(w);
      if v'.input == [] then Run(Some(ErrIO), v')
      else SendRun(data, SenderNext(data, s, v'.input[0]), v'.Next())
  }

  method MakeFrame(block: byte, chunk: seq<byte>, useCRC: bool) returns (frame: seq<byte>)
    ensures frame == Frame(block, chunk, useCRC)
  {
    frame := [SOH, block, 255 - block] + chunk;
    if useCRC {
      var c := ComputeCrc16(chunk);
      frame := frame + [(c >> 8) as byte, (c & 0xff) as byte];
    } else {
      var sum := ComputeSum8(chunk);
      frame := frame + [sum];
    }
  }

  method SendBlock(w: Wire, block: byte, chunk: seq<byte>, useCRC: bool,
                   ghost data: seq<byte>, ghost i: nat)
    returns (err: Option<Error>)
    requires i < Blocks(data) && chunk == Chunk(data, i)
    modifies w
    ensures SendRun(data, Sending(i, block, 0, useCRC), old(w.Now())) ==
            if err == None then SendRun(data, AfterBlock(data, i, block, useCRC), w.Now())
            else Run(err, w.Now())
  {
    hide Chunk, Blocks, Check, AfterBlock;
    var frame := MakeFrame(block, chunk, useCRC);
    assert frame == Written(data, Sending(i, block, 0, useCRC)) && frame != [];
    hide Frame;
    ghost var whole := SendRun(data, Sending(i, block, 0, useCRC), w.Now());
    for tries := 0 to MAX_RETRIES
      invariant whole == if tries < MAX_RETRIES then SendRun(data, Sending(i, block, tries, useCRC), w.Now())
                         else Run(Some(ErrNoAck), w.Now())
    {
      ghost var s := Sending(i, block, tries, useCRC);
      ghost var v := w.Now();
      assert Written(data, s) == frame;
      var ok := w.Write(frame);
      if !ok {
        return Some(ErrIO);
      }
      ghost var v' := w.Now();
      var b := w.ReadByte();
      if b == None {
        return Some(ErrIO);
      }
      assert SendRun(data, s, v) == SendRun(data, SenderNext(data, s, b.value), v'.Next());
      if b.value == ACK {
        return None;
      } else if b.value == CAN {
        return Some(ErrCanceled);
      }
    }
    return Some(ErrNoAck);
  }

  method ComputeSum8(chunk: seq<byte>) returns (sum: byte)
    ensures sum == Sum8(chunk)
  {
    sum := 0;
    for k := 0 to |chunk|
      invariant sum == Sum8(chunk[..k])
    {
      assert chunk[..k + 1][..k] == chunk[..k];
      sum := sum + chunk[k];
    }
    assert chunk[..|chunk|] == chunk;
  }

  /** Waits for the receiver to ask for CRC mode ('C') or checksum mode (NAK). */
  method AwaitStart(w: Wire, ghost data: seq<byte>) returns (err: Option<Error>, useCRC: bool)
    modifies w
    ensures SendRun(data, Starting(0), old(w.Now())) ==
            if err == None then SendRun(data, Sending(0, 1, 0, useCRC), w.Now()) else Run(err, w.Now())
  {
    useCRC := true;
    var tries := 0;
    while true
      invariant tries <= MAX_RETRIES
      invariant SendRun(data, Starting(0), old(w.Now())) == SendRun(data, Starting(tries), w.Now())
      decreases |w.input|
    {
      var b := w.ReadByte();
      if b == None {
        return Some(ErrIO), useCRC;
      }
      if b.value == START {
        return None, true;
      }
      if b.value == NAK {
        return None, false;
      }
      if b.value == CAN {
        return Some(ErrCanceled), useCRC;
      }
      if tries >= MAX_RETRIES {
        return Some(ErrNoStart), useCRC;
      }
      tries := tries + 1;
    }
  }

  method SendEot(w: Wire, ghost data: seq<byte>) returns (err: Option<Error>)
    modifies w
    ensures SendRun(data, Ending(0), old(w.Now())) == Run(err, w.Now())
  {
    for tries := 0 to MAX_RETRIES
      invariant SendRun(data, Ending(0), old(w.Now())) ==
                if tries < MAX_RETRIES then SendRun(data, Ending(tries), w.Now())
                else Run(Some(ErrNoAck), w.Now())
    {
      assert Written(data, Ending(tries)) == [EOT];
      var ok := w.Write([EOT]);
      if !ok {
        return Some(ErrIO);
      }
      var b := w.ReadByte();
      if b == None {
        return Some(ErrIO);
      }
      if b.value == ACK {
        return None;
      }
    }
    return Some(ErrNoAck);
  }

  /** Sends `data`: the result, every byte written and every reply consumed are those of the machine. */
  method Send(w: Wire, data: seq<byte>) returns (err: Option<Error>)
    modifies w
    ensures Run(err, w.Now()) == SendRun(data, Starting(0), old(w.Now()))
  {
    hide SendRun;
    ghost var whole := SendRun(data, Starting(0), w.Now());
    var useCRC;
    err, useCRC := AwaitStart(w, data);
    if err != None {
      return err;
    }
    var block: byte := 1;
    var off := 0;
    ghost var i := 0;
    while off < |data| || off == 0
      invariant off == BLOCK * i && i < Blocks(data)
      invariant whole == SendRun(data, Sending(i, block, 0, useCRC), w.Now())
      decreases |data| - off
    {
      var n := if off + 128 <= |data| then 128 else |data| - off;
      var chunk := data[off..off + n] + Repeat(SUB, 128 - n);
      err := SendBlock(w, block, chunk, useCRC, data, i);
      if err != None {
        return err;
      }
      block := block + 1;
      if off + 128 >= |data| {
        break;
      }
      off := off + 128;
      i := i + 1;
    }
    err := SendEot(w, data);
  }

  // ---------------------------------------------------------------------------
  // The receiver
  // ---------------------------------------------------------------------------

  /** `Framing` has read SOH and then `part` of the frame's other 132 bytes. */
  datatype Receiver =
    | Idle(buf: seq<byte>, expected: byte)
    | Framing(buf: seq<byte>, expected: byte, part: seq<byte>)
    | Finished(buf: seq<byte>, result: Received)

  const FRAME_REST := 2 + 128 + 2

  ghost predicate ReceiverOk(r: Receiver) {
    r.Framing? ==> |r.part| < FRAME_REST
  }

  function Trim(b: seq<byte>): seq<byte> {
    if b != [] && b[|b| - 1] == SUB then Trim(b[..|b| - 1]) else b
  }

  predicate GoodHeader(frame: seq<byte>)
    requires |frame| == FRAME_REST
  {
    frame[0] == 255 - frame[1]
  }

  function FrameData(frame: seq<byte>): seq<byte>
    requires |frame| == FRAME_REST
  {
    frame[2..130]
  }

  predicate GoodCheck(frame: seq<byte>)
    requires |frame| == FRAME_REST
  {
    Crc16(FrameData(frame)) == Join(frame[130], frame[131])
  }

  /** The receiver's answer to a complete frame. A limit that is not positive means no limit. */
  function Judge(limit: int, buf: seq<byte>, expected: byte, frame: seq<byte>): (Receiver, seq<byte>)
    requires |frame| == FRAME_REST
  {
    if GoodHeader(frame) && GoodCheck(frame) && frame[0] == expected then
      var buf' := buf + FrameData(frame);
      if limit > 0 && |buf'| > limit then (Finished(buf', Failed(ErrTooBig)), [CAN, CAN])
      else (Idle(buf', expected + 1), [ACK])
    else if GoodHeader(frame) && frame[0] == expected - 1 then (Idle(buf, expected), [ACK])
    else (Idle(buf, expected), [NAK])
  }

  function ReceiverNext(limit: int, r: Receiver, b: byte): (next: (Receiver, seq<byte>))
    requires ReceiverOk(r)
    ensures ReceiverOk(next.0)
  {
    match r
    case Idle(buf, expected) =>
      if b == EOT then (Finished(buf, Got(Trim(buf))), [ACK])
      else if b == CAN then (Finished(buf, Failed(ErrCanceled)), [])
      else if b == SOH then (Framing(buf, expected, []), [])
      else (r, [])
    case Framing(buf, expected, part) =>
      var part' := part + [b];
      if |part'| == FRAME_REST then Judge(limit, buf, expected, part')
      else (Framing(buf, expected, part'), [])
    case Finished(_, _) => (r, [])
  }

  /** The receiver's run from state `r` on connection `v`; it ignores the errors of its writes. */
  function ReceiveRun(limit: int, r: Receiver, v: View): Run<Received>
    requires ReceiverOk(r)
    decreases |v.input|
  {
    if r.Finished? then Run(r.result, v)
    else if v.input == [] then Run(Failed(ErrIO), v)
    else
      var (r', w) := ReceiverNext(limit, r, v.input[0]);
      ReceiveRun(limit, r', if w == [] then v.Next() else v.Next().PutIfOpen(w))
  }

  /** A call of `Receive`: the opening 'C' must go out before anything is read. */
  function ReceiveCall(limit: int, v: View): Run<Received> {
    if v.room == 0 then Run(Failed(ErrIO), v) else ReceiveRun(limit, Idle([], 1), v.Put([START]))
  }

  /** A frame that arrives in full is judged; a stream that ends inside it is a read error. */
  lemma {:induction false} FrameAbsorbed(limit: int, buf: seq<byte>, expected: byte, part: seq<byte>, v: View)
    requires |part| < FRAME_REST
    ensures var need := FRAME_REST - |part|;
            ReceiveRun(limit, Framing(buf, expected, part), v) ==
            if |v.input| < need then Run(Failed(ErrIO), v.(input := []))
            else var (r, w) := Judge(limit, buf, expected, part + v.input[..need]);
                 ReceiveRun(limit, r, v.(input := v.input[need..]).PutIfOpen(w))
    decreases FRAME_REST - |part|
  {
    hide Judge;
    var need := FRAME_REST - |part|;
    if v.input != [] {
      var part' := part + [v.input[0]];
      var v' := v.Next();
      if need > 1 {
        FrameAbsorbed(limit, buf, expected, part', v');
        if |v.input| >= need {
          assert part + v.input[..need] == part' + v'.input[..need - 1];
          assert v.input[need..] == v'.input[need - 1..];
        }
      } else {
        assert v.input[..1] == [v.input[0]];
        JudgeAnswers(limit, buf, expected, part');
      }
    }
  }

  /** What follows SOH: two header bytes, the data, two check bytes. */
  method ReadFrame(w: Wire) returns (frame: Option<seq<byte>>)
    modifies w
    ensures |old(w.input)| < FRAME_REST ==> frame == None && w.Now() == old(w.Now()).(input := [])
    ensures |old(w.input)| >= FRAME_REST ==>
      && frame == Some(old(w.input)[..FRAME_REST])
      && w.Now() == old(w.Now()).(input := old(w.input)[FRAME_REST..])
  {
    var hdr := w.ReadFull(2);
    if hdr == None {
      return None;
    }
    var data := w.ReadFull(128);
    if data == None {
      return None;
    }
    var ck := w.ReadFull(2);
    if ck == None {
      return None;
    }
    assert hdr.value + data.value + ck.value == old(w.input)[..FRAME_REST];
    return Some(hdr.value + data.value + ck.value);
  }

  method TrimPad(b: seq<byte>) returns (r: seq<byte>)
    ensures r == Trim(b)
  {
    var i := |b|;
    assert b[..i] == b;
    while i > 0 && b[i - 1] == SUB
      invariant 0 <= i <= |b|
      invariant Trim(b) == Trim(b[..i])
    {
      assert b[..i][..i - 1] == b[..i - 1];
      i := i - 1;
    }
    return b[..i];
  }

  /** The receiver's verdict on a frame: accept, acknowledge again, refuse, or give up. */
  method AnswerFrame(w: Wire, maxBytes: int, buf: seq<byte>, block: byte, frame: seq<byte>)
    returns (r: Receiver)
    requires |frame| == FRAME_REST
    modifies w
    ensures var (r', reply) := Judge(maxBytes, buf, block, frame);
            r == r' && w.Now() == old(w.Now()).PutIfOpen(reply)
  {
    hide Crc16, Join;
    var out, expected := buf, block;
    var data := frame[2..130];
    var goodHdr := frame[0] == 255 - frame[1];
    var crc := ComputeCrc16(data);
    var goodCRC := crc == Join(frame[130], frame[131]);
    if goodHdr && goodCRC && frame[0] == expected {
      out := out + data;
      expected := expected + 1;
      if maxBytes > 0 && |out| > maxBytes {
        var _ := w.Write([CAN, CAN]);
        return Finished(out, Failed(ErrTooBig));
      }
      var _ := w.Write([ACK]);
    } else if goodHdr && frame[0] == expected - 1 {
      var _ := w.Write([ACK]);
    } else {
      var _ := w.Write([NAK]);
    }
    return Idle(out, expected);
  }

  /** Receives an upload: the result, every reply written and every byte consumed are the machine's. */
  method Receive(w: Wire, maxBytes: int) returns (r: Received)
    modifies w
    ensures Run(r, w.Now()) == ReceiveCall(maxBytes, old(w.Now()))
  {
    hide Judge;
    var started := w.Write([START]);
    if !started {
      return Failed(ErrIO);
    }
    ghost var whole := ReceiveCall(maxBytes, old(w.Now()));
    var out: seq<byte> := [];
    var expected: byte := 1;
    while true
      invariant whole == ReceiveRun(maxBytes, Idle(out, expected), w.Now())
      decreases |w.input|
    {
      var b := w.ReadByte();
      if b == None {
        return Failed(ErrIO);
      }
      if b.value == EOT {
        var _ := w.Write([ACK]);
        var trimmed := TrimPad(out);
        return Got(trimmed);
      } else if b.value == CAN {
        return Failed(ErrCanceled);
      } else if b.value == SOH {
        FrameAbsorbed(maxBytes, out, expected, [], w.Now());
        var frame := ReadFrame(w);
        if frame == None {
          return Failed(ErrIO);
        }
        assert [] + frame.value == frame.value;
        var state := AnswerFrame(w, maxBytes, out, expected, frame.value);
        JudgeAnswers(maxBytes, out, expected, frame.value);
        if state.Finished? {
          return state.result;
        }
        out, expected := state.buf, state.expected;
      }
    }
  }

  lemma JudgeAnswers(limit: int, buf: seq<byte>, expected: byte, frame: seq<byte>)
    requires |frame| == FRAME_REST
    ensures !Judge(limit, buf, expected, frame).0.Framing? && Judge(limit, buf, expected, frame).1 != []
  {
  }
}
