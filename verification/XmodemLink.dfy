/** A sender and a receiver joined by a faulty line, as a step system: every interleaving of single-byte
    reads on either side, every fault the line can make, any number of blocks. */
module XmodemLink {
  import opened Bytes
  import opened Crc
  import opened Xmodem
  import XmodemStream

  /** `fwd` and `back` hold the bytes in transit to the receiver and to the sender, as the line will
      deliver them; `frames` counts the frames written so far, by block index. */
  datatype System = System(s: Sender, r: Receiver, fwd: seq<byte>, back: seq<byte>, frames: multiset<nat>)

  // ---------------------------------------------------------------------------
  // What the line may do
  // ---------------------------------------------------------------------------

  /** The frame `got` for the frame `sent`: SOH and length intact, damage to the header leaves it
      inconsistent, and damage to the data or the check bytes shows in the CRC. */
  ghost predicate Detectable(sent: seq<byte>, got: seq<byte>)
    requires |sent| == 1 + FRAME_REST
  {
    && |got| == |sent| && got[0] == sent[0]
    && (GoodHeader(got[1..]) ==> got[1] == sent[1])
    && (GoodCheck(got[1..]) ==> FrameData(got[1..]) == FrameData(sent[1..]))
  }

  ghost predicate Forward(sent: seq<byte>, got: seq<byte>) {
    if |sent| == 1 + FRAME_REST then Detectable(sent, got) else got == sent
  }

  /** Replies may be garbled into anything except an ACK that was not sent. */
  ghost predicate Backward(sent: seq<byte>, got: seq<byte>) {
    |got| == |sent| && forall k :: 0 <= k < |got| && got[k] == ACK ==> sent[k] == ACK
  }

  /** The fault class the line relation stands for: at most one of the two header bytes altered, and
      any damage inside two adjacent bytes of the data and its check value. */
  lemma FaultsAreDetectable(block: byte, chunk: seq<byte>, got: seq<byte>, p: nat)
    requires |chunk| == BLOCK
    requires var sent := Frame(block, chunk, true);
             && |got| == |sent| && got[0] == SOH
             && (got[1] == sent[1] || got[2] == sent[2])
             && DifferWithin(sent[3..], got[3..], p)
    ensures Detectable(Frame(block, chunk, true), got)
  {
    hide Crc16, Join, CrcBytes, Frame, FrameData, GoodHeader, GoodCheck;
    var sent := Frame(block, chunk, true);
    var rest := got[1..];
    XmodemStream.FrameParts(block, chunk);
    XmodemStream.FrameLayout(block, chunk);
    FrameStarts(block, chunk);
    HeaderFault(sent, got);
    SplitRest(rest);
    assert sent[3..] == sent[1..][2..] == chunk + CrcBytes(Crc16(chunk));
    assert got[3..] == rest[2..];
    DataFault(chunk, rest, p);
  }

  lemma FrameStarts(block: byte, chunk: seq<byte>)
    ensures Frame(block, chunk, true)[0] == SOH
  {
  }

  lemma HeaderFault(sent: seq<byte>, got: seq<byte>)
    requires |sent| == |got| == 1 + FRAME_REST && GoodHeader(sent[1..])
    requires got[1] == sent[1] || got[2] == sent[2]
    ensures GoodHeader(got[1..]) ==> got[1] == sent[1]
  {
    if got[2] == sent[2] && GoodHeader(got[1..]) {
      ComplementInjective(got[1], sent[1], got[2]);
    }
  }

  lemma SplitRest(rest: seq<byte>)
    requires |rest| == FRAME_REST
    ensures rest[2..] == FrameData(rest) + [rest[130], rest[131]]
  {
  }

  lemma DataFault(chunk: seq<byte>, rest: seq<byte>, p: nat)
    requires |chunk| == BLOCK && |rest| == FRAME_REST
    requires DifferWithin(chunk + CrcBytes(Crc16(chunk)), FrameData(rest) + [rest[130], rest[131]], p)
    ensures GoodCheck(rest) ==> FrameData(rest) == chunk
  {
    var ck := CrcBytes(Crc16(chunk));
    var data := FrameData(rest);
    assert |ck| == 2 && |data| == BLOCK;
    hide Crc16, Join, FrameData, CrcBytes;
    if chunk + ck == data + [rest[130], rest[131]] {
      assert data == (data + [rest[130], rest[131]])[..BLOCK] == (chunk + ck)[..BLOCK] == chunk;
    } else {
      DamageRejected(chunk, data, rest[130], rest[131], p);
    }
  }

  lemma ComplementInjective(a: byte, b: byte, c: byte)
    requires a == 255 - c && c == 255 - b
    ensures a == b
  {
  }

  // ---------------------------------------------------------------------------
  // Steps
  // ---------------------------------------------------------------------------

  ghost predicate Init(st: System) {
    && st.s == Starting(0) && st.r == Idle([], 1)
    && st.fwd == [] && st.frames == multiset{}
    && |st.back| == 1 && st.back[0] != NAK  // the opening 'C', garbled or not; NAK would select checksum mode
  }

  /** The sender reads one reply byte and writes what its new state asks for. */
  ghost predicate SenderStep(data: seq<byte>, st: System, st': System, got: seq<byte>)
    requires SenderOk(data, st.s)
  {
    && !st.s.Stopped? && st.back != []
    && var s' := SenderNext(data, st.s, st.back[0]);
       && Forward(Written(data, s'), got)
       && st' == System(s', st.r, st.fwd + got, st.back[1..],
                        if s'.Sending? then st.frames + multiset{s'.i} else st.frames)
  }

  /** The receiver reads one byte and writes its reply, if any. */
  ghost predicate ReceiverStep(limit: int, st: System, st': System, got: seq<byte>)
    requires ReceiverOk(st.r)
  {
    && !st.r.Finished? && st.fwd != []
    && var (r', reply) := ReceiverNext(limit, st.r, st.fwd[0]);
       && Backward(reply, got)
       && st' == st.(r := r', fwd := st.fwd[1..], back := st.back + got)
  }

  ghost predicate Step(data: seq<byte>, limit: int, st: System, st': System) {
    && SenderOk(data, st.s) && ReceiverOk(st.r)
    && ((exists got :: SenderStep(data, st, st', got)) || (exists got :: ReceiverStep(limit, st, st', got)))
  }

  ghost predicate IsRun(data: seq<byte>, limit: int, run: seq<System>) {
    && run != [] && Init(run[0])
    && forall k :: 0 <= k < |run| - 1 ==> Step(data, limit, run[k], run[k + 1])
  }

  // ---------------------------------------------------------------------------
  // The invariant
  // ---------------------------------------------------------------------------

  /** The block number that goes with index `i`: it wraps every 256 blocks. */
  function BlockByte(i: nat): byte {
    if i == 0 then 1 else BlockByte(i - 1) + 1
  }

  function Prefix(data: seq<byte>, k: nat): seq<byte>
    requires k <= Blocks(data)
  {
    Padded(data)[..BLOCK * k]
  }

  function Count(r: Receiver): nat {
    |r.buf| / BLOCK
  }

  /** The receiver holds exactly the first `k` blocks and expects block `k`. */
  ghost predicate HasBlocks(data: seq<byte>, r: Receiver, k: nat) {
    && k <= Blocks(data) && r.buf == Prefix(data, k)
    && (!r.Finished? ==> r.expected == BlockByte(k))
  }

  ghost predicate FrameArriving(sent: seq<byte>, r: Receiver, fwd: seq<byte>)
    requires |sent| == 1 + FRAME_REST
  {
    match r
    case Idle(_, _) => Detectable(sent, fwd)
    case Framing(_, _, part) => |part| < FRAME_REST && Detectable(sent, [SOH] + (part + fwd))
    case Finished(_, _) => false
  }

  ghost predicate FramesOk(s: Sender, frames: multiset<nat>) {
    && (forall j :: frames[j] <= MAX_RETRIES)
    && (s.Starting? ==> frames == multiset{})
    && (s.Sending? ==> frames[s.i] == s.tries + 1 && forall j :: j > s.i ==> frames[j] == 0)
  }

  ghost predicate SendingInv(data: seq<byte>, st: System)
    requires st.s.Sending? && st.s.i < Blocks(data)
  {
    var Sending(i, block, tries, useCRC) := st.s;
    var k := Count(st.r);
    && useCRC && block == BlockByte(i) && (k == i || k == i + 1)
    && (if st.r.Finished? then
          st.r.result == Failed(ErrTooBig) && ACK !in st.back && k == i + 1
        else if st.back == [] then
          FrameArriving(Frame(block, Chunk(data, i), true), st.r, st.fwd)
        else
          st.r.Idle? && st.fwd == [] && |st.back| == 1 && (st.back[0] == ACK ==> k == i + 1))
  }

  ghost predicate EndingInv(data: seq<byte>, st: System) {
    && Count(st.r) == Blocks(data)
    && (if st.r.Finished? then st.r.result == Got(Trim(data))
        else st.r.Idle? && st.fwd == [EOT] && st.back == [])
  }

  ghost predicate StoppedInv(data: seq<byte>, st: System)
    requires st.s.Stopped?
  {
    && (st.r.Finished? ==> st.r.result == Failed(ErrTooBig)
                           || (st.r.result == Got(Trim(data)) && Count(st.r) == Blocks(data)))
    && (!st.r.Finished? ==> st.r.Idle? && st.fwd == [])
    && (st.s.err == None ==> st.r == Finished(Padded(data), Got(Trim(data))))
  }

  ghost predicate Inv(data: seq<byte>, st: System) {
    && SenderOk(data, st.s) && FramesOk(st.s, st.frames)
    && HasBlocks(data, st.r, Count(st.r))
    && match st.s
       case Starting(_) =>
         st.r == Idle([], 1) && st.fwd == [] && |st.back| <= 1 && NAK !in st.back
       case Sending(_, _, _, _) => SendingInv(data, st)
       case Ending(_) => EndingInv(data, st)
       case Stopped(_) => StoppedInv(data, st)
  }

  lemma InitInv(data: seq<byte>, st: System)
    requires Init(st)
    ensures Inv(data, st)
  {
    assert Prefix(data, 0) == [];
  }

  lemma PrefixSize(data: seq<byte>, k: nat)
    requires k <= Blocks(data)
    ensures |Prefix(data, k)| / BLOCK == k
  {
  }

  lemma FramesStep(data: seq<byte>, st: System, st': System, got: seq<byte>)
    requires Inv(data, st) && SenderStep(data, st, st', got)
    ensures FramesOk(st'.s, st'.frames)
  {
    hide Frame, Chunk, Blocks, Padded, Detectable, Trim, Prefix, Forward, HasBlocks, SendingInv, EndingInv;
  }

  /** A reply that is no ACK: the same frame again, or the sender stops. */
  lemma RefusedInv(data: seq<byte>, st: System, st': System, got: seq<byte>)
    requires Inv(data, st) && SenderStep(data, st, st', got)
    requires st.s.Sending? && st.back[0] != ACK
    ensures Inv(data, st')
  {
    hide Frame, Chunk, Blocks, Padded, Detectable, Trim, Prefix, FramesOk, Count, HasBlocks, BlockByte, Forward, Written;
    FramesStep(data, st, st', got);
    RefusedSender(data, st, st', got);
    hide SenderStep;
    assert forall b :: b in st'.back ==> b in st.back;
    if !st.r.Finished? {
      assert st'.back == [] && st'.fwd == got;
    }
  }

  lemma RefusedSender(data: seq<byte>, st: System, st': System, got: seq<byte>)
    requires SenderOk(data, st.s) && SenderStep(data, st, st', got)
    requires st.s.Sending? && st.s.useCRC && st.back[0] != ACK
    ensures st'.r == st.r && st'.back == st.back[1..] && st'.fwd == st.fwd + got && SenderOk(data, st'.s)
    ensures if st'.s.Sending? then
              && st'.s == st.s.(tries := st.s.tries + 1)
              && Detectable(Frame(st.s.block, Chunk(data, st.s.i), true), got)
            else st'.s.Stopped? && st'.s.err != None && got == []
  {
    hide Chunk, Blocks, Detectable;
    var block, chunk := st.s.block, Chunk(data, st.s.i);
    assert |Frame(block, chunk, true)| == 1 + FRAME_REST;
    hide Frame;
  }

  lemma NextBlockByte(i: nat)
    ensures BlockByte(i + 1) == BlockByte(i) + 1
  {
  }

  /** An ACK moves the sender on, and then the receiver has the acknowledged block. */
  lemma AckedInv(data: seq<byte>, st: System, st': System, got: seq<byte>)
    requires Inv(data, st) && SenderStep(data, st, st', got)
    requires st.s.Sending? && st.back[0] == ACK
    ensures Inv(data, st')
  {
    FramesStep(data, st, st', got);
    AckedSender(data, st, st', got);
    AckedChannels(data, st, st', got);
    assert HasBlocks(data, st.r, Count(st.r));
    hide Frame, Chunk, Blocks, Padded, Detectable, Trim, FramesOk, Count, BlockByte, HasBlocks,
         SenderStep, SenderNext, AfterBlock;
  }

  lemma AckedSender(data: seq<byte>, st: System, st': System, got: seq<byte>)
    requires Inv(data, st) && SenderStep(data, st, st', got)
    requires st.s.Sending? && st.back[0] == ACK
    ensures st'.r == st.r && SenderOk(data, st'.s)
    ensures st'.s.Sending? || (st'.s.Ending? && Blocks(data) == st.s.i + 1)
    ensures st'.s.Sending? ==> st'.s.i == st.s.i + 1 && st'.s.useCRC && st'.s.block == BlockByte(st'.s.i)
  {
    hide Frame, Chunk, Blocks, Padded, Detectable, Trim, Prefix, FramesOk, Count, BlockByte, Forward, HasBlocks;
    NextBlockByte(st.s.i);
  }

  lemma AckedChannels(data: seq<byte>, st: System, st': System, got: seq<byte>)
    requires Inv(data, st) && SenderStep(data, st, st', got)
    requires st.s.Sending? && st.back[0] == ACK
    ensures st.r.Idle? && Count(st.r) == st.s.i + 1
    ensures st'.fwd == got && st'.back == []
    ensures st'.s.Sending? ==> Detectable(Frame(st'.s.block, Chunk(data, st'.s.i), true), got)
    ensures st'.s.Ending? ==> got == [EOT]
  {
    hide Frame, Chunk, Blocks, Padded, Detectable, Trim, Prefix, FramesOk, Count, BlockByte, HasBlocks;
    assert !st.r.Finished? by { assert st.back[0] in st.back; }
  }

  lemma SenderStepInv(data: seq<byte>, st: System, st': System, got: seq<byte>)
    requires Inv(data, st) && SenderStep(data, st, st', got)
    ensures Inv(data, st')
  {
    FramesStep(data, st, st', got);
    hide Frame, Chunk, Blocks, Padded, Detectable, Trim, Prefix, FramesOk;
    if st.s.Starting? {
      assert st'.s.Sending? ==> st'.s.block == BlockByte(0) && st'.fwd == got;
    } else if st.s.Sending? {
      if st.back[0] == ACK { AckedInv(data, st, st', got); } else { RefusedInv(data, st, st', got); }
    } else {
      EndingStepInv(data, st, st', got);
    }
  }

  lemma EndingStepInv(data: seq<byte>, st: System, st': System, got: seq<byte>)
    requires Inv(data, st) && SenderStep(data, st, st', got)
    requires st.s.Ending?
    ensures Inv(data, st')
  {
    assert Prefix(data, Blocks(data)) == Padded(data);
  }

  /** The verdict on a frame for block `i`, by a receiver with `k` blocks: it appends exactly the block
      it lacks, acknowledges only when it has the block, and never mistakes a damaged frame for one. */
  lemma Verdict(data: seq<byte>, limit: int, i: nat, k: nat, frame: seq<byte>)
    requires i < Blocks(data) && k <= Blocks(data) && (k == i || k == i + 1)
    requires |frame| == FRAME_REST
    requires Detectable(Frame(BlockByte(i), Chunk(data, i), true), [SOH] + frame)
    ensures var (r, reply) := Judge(limit, Prefix(data, k), BlockByte(k), frame);
            || (r == Idle(Prefix(data, k), BlockByte(k)) && reply == [NAK])
            || (r == Idle(Prefix(data, i + 1), BlockByte(i + 1)) && reply == [ACK])
            || (k == i && r == Finished(Prefix(data, i + 1), Failed(ErrTooBig)) && reply == [CAN, CAN]
                && 0 < limit < BLOCK * (i + 1))
    ensures [SOH] + frame == Frame(BlockByte(i), Chunk(data, i), true) && (limit <= 0 || BLOCK * (i + 1) <= limit) ==>
            Judge(limit, Prefix(data, k), BlockByte(k), frame) == (Idle(Prefix(data, i + 1), BlockByte(i + 1)), [ACK])
  {
    hide Detectable, Frame, Chunk, Blocks, Prefix, BlockByte, FrameData, GoodHeader, GoodCheck, Judge;
    FrameFacts(BlockByte(i), Chunk(data, i), frame);
    PrefixGrows(data, i);
    NextBlockByte(i);
    if k == i {
      JudgeMissing(limit, Prefix(data, i), BlockByte(i), frame);
    } else {
      JudgePresent(limit, Prefix(data, i + 1), BlockByte(i), frame);
    }
  }

  lemma JudgeMissing(limit: int, buf: seq<byte>, block: byte, frame: seq<byte>)
    requires |frame| == FRAME_REST && (GoodHeader(frame) ==> frame[0] == block)
    ensures Judge(limit, buf, block, frame) ==
            if !(GoodHeader(frame) && GoodCheck(frame)) then (Idle(buf, block), [NAK])
            else if limit > 0 && |buf + FrameData(frame)| > limit then
              (Finished(buf + FrameData(frame), Failed(ErrTooBig)), [CAN, CAN])
            else (Idle(buf + FrameData(frame), block + 1), [ACK])
  {
    hide FrameData, GoodHeader, GoodCheck;
    Neighbours(block);
  }

  lemma JudgePresent(limit: int, buf: seq<byte>, block: byte, frame: seq<byte>)
    requires |frame| == FRAME_REST && (GoodHeader(frame) ==> frame[0] == block)
    ensures Judge(limit, buf, block + 1, frame) ==
            (Idle(buf, block + 1), if GoodHeader(frame) then [ACK] else [NAK])
  {
    hide FrameData, GoodHeader, GoodCheck;
    Neighbours(block);
  }

  lemma FrameFacts(block: byte, chunk: seq<byte>, frame: seq<byte>)
    requires |chunk| == BLOCK && |frame| == FRAME_REST
    requires Detectable(Frame(block, chunk, true), [SOH] + frame)
    ensures GoodHeader(frame) ==> frame[0] == block
    ensures GoodCheck(frame) ==> FrameData(frame) == chunk
    ensures [SOH] + frame == Frame(block, chunk, true) ==> GoodHeader(frame) && GoodCheck(frame)
  {
    XmodemStream.FrameParts(block, chunk);
    hide Crc16, Join, Frame;
    assert ([SOH] + frame)[1..] == frame;
  }

  lemma PrefixGrows(data: seq<byte>, i: nat)
    requires i < Blocks(data)
    ensures Prefix(data, i) + Chunk(data, i) == Prefix(data, i + 1)
    ensures |Prefix(data, i + 1)| == BLOCK * (i + 1)
  {
    ChunkOfPadded(data, i);
  }

  lemma Neighbours(b: byte)
    ensures b != b - 1 && b + 1 - 1 == b && b + 1 != b
  {
  }

  /** The receiver reads a byte of an arriving frame before its last. */
  lemma ArrivingInv(data: seq<byte>, limit: int, st: System, st': System, got: seq<byte>)
    requires Inv(data, st) && ReceiverOk(st.r) && ReceiverStep(limit, st, st', got)
    requires st.s.Sending? && !st'.r.Idle? && !st'.r.Finished?
    ensures Inv(data, st')
  {
    hide Frame, Chunk, Blocks, Padded, Detectable, Trim, Prefix, FramesOk, BlockByte, Judge;
    if st.r.Idle? {
      assert [SOH] + ([] + st'.fwd) == st.fwd;
    } else if |st.r.part| + 1 == FRAME_REST {
      JudgeAnswers(limit, st.r.buf, st.r.expected, st.r.part + [st.fwd[0]]);
    } else {
      assert st'.r.part + st'.fwd == st.r.part + st.fwd;
    }
  }

  /** The receiver reads the last byte and answers. */
  lemma ArrivedInv(data: seq<byte>, limit: int, st: System, st': System, got: seq<byte>)
    requires Inv(data, st) && ReceiverOk(st.r) && ReceiverStep(limit, st, st', got)
    requires st.s.Sending? && st.r.Framing? && |st.r.part| == FRAME_REST - 1
    ensures Inv(data, st')
  {
    hide Frame, Chunk, Blocks, Padded, Trim, Prefix, FramesOk, BlockByte, Judge, GoodHeader, GoodCheck, FrameData,
         Backward;
    var i, k := st.s.i, Count(st.r);
    var frame := st.r.part + [st.fwd[0]];
    LastByte(data, st);
    hide Detectable;
    Verdict(data, limit, i, k, frame);
    ArrivedReply(limit, st, st', got);
    PrefixSize(data, k);
    PrefixSize(data, i + 1);
    hide ReceiverStep, Backward;
  }

  lemma LastByte(data: seq<byte>, st: System)
    requires Inv(data, st) && st.s.Sending? && st.r.Framing? && |st.r.part| == FRAME_REST - 1 && st.fwd != []
    ensures st.s.i < Blocks(data) && st.s.useCRC && st.s.block == BlockByte(st.s.i) && st.back == []
    ensures |st.fwd| == 1
    ensures Detectable(Frame(st.s.block, Chunk(data, st.s.i), true), [SOH] + (st.r.part + [st.fwd[0]]))
  {
    hide Frame, Chunk, Blocks, Padded, Trim, Prefix, FramesOk, BlockByte, GoodHeader, GoodCheck, FrameData, HasBlocks;
    var fwd := st.fwd;
    var sent := Frame(st.s.block, Chunk(data, st.s.i), true);
    assert FrameArriving(sent, st.r, fwd);
    assert |[SOH] + (st.r.part + fwd)| == 1 + FRAME_REST;
    assert fwd == [fwd[0]];
  }

  lemma ArrivedReply(limit: int, st: System, st': System, got: seq<byte>)
    requires ReceiverOk(st.r) && ReceiverStep(limit, st, st', got)
    requires st.r.Framing? && |st.r.part| == FRAME_REST - 1 && st.back == []
    ensures var (r', reply) := Judge(limit, st.r.buf, st.r.expected, st.r.part + [st.fwd[0]]);
            && st' == st.(r := r', fwd := st.fwd[1..], back := got)
            && |got| == |reply| && (ACK !in reply ==> ACK !in got)
  {
    hide Judge;
    assert [] + got == got;
  }

  lemma ReceiverStepInv(data: seq<byte>, limit: int, st: System, st': System, got: seq<byte>)
    requires Inv(data, st) && ReceiverOk(st.r) && ReceiverStep(limit, st, st', got)
    ensures Inv(data, st')
  {
    hide Frame, Chunk, Blocks, Padded, Trim, Prefix, FramesOk, BlockByte, Judge;
    if st.s.Sending? {
      if st.r.Framing? && |st.r.part| == FRAME_REST - 1 {
        ArrivedInv(data, limit, st, st', got);
      } else {
        ArrivingInv(data, limit, st, st', got);
      }
    } else {
      EotInv(data, limit, st, st', got);
    }
  }

  /** The only other byte ever on its way to a live receiver is the EOT that ends the transfer. */
  lemma EotInv(data: seq<byte>, limit: int, st: System, st': System, got: seq<byte>)
    requires Inv(data, st) && ReceiverOk(st.r) && ReceiverStep(limit, st, st', got)
    requires !st.s.Sending?
    ensures st.s.Ending? && Inv(data, st')
  {
    hide FramesOk, BlockByte, Judge;
    XmodemStream.TrimPadded(data);
    assert Prefix(data, Blocks(data)) == Padded(data);
  }

  lemma StepInv(data: seq<byte>, limit: int, st: System, st': System)
    requires Inv(data, st) && Step(data, limit, st, st')
    ensures Inv(data, st')
  {
    hide Inv, SenderStep, ReceiverStep;
    if got :| SenderStep(data, st, st', got) {
      SenderStepInv(data, st, st', got);
    } else {
      var got :| ReceiverStep(limit, st, st', got);
      ReceiverStepInv(data, limit, st, st', got);
    }
  }

  lemma {:induction false} RunInv(data: seq<byte>, limit: int, run: seq<System>)
    requires IsRun(data, limit, run)
    ensures Inv(data, run[|run| - 1])
    decreases |run|
  {
    hide Inv, Step, Init;
    if |run| == 1 {
      InitInv(data, run[0]);
    } else {
      RunInv(data, limit, run[..|run| - 1]);
      StepInv(data, limit, run[|run| - 2], run[|run| - 1]);
    }
  }

  /** Safety, in every interleaving and under every fault the line can make, across any number of
      wraps of the block byte: the receiver holds exactly the first blocks, as many as the sender's
      index or one more; no block is sent more than ten times; what either side reports is the truth. */
  lemma Safety(data: seq<byte>, limit: int, run: seq<System>)
    requires IsRun(data, limit, run)
    ensures var st := run[|run| - 1];
            var k := Count(st.r);
            && k <= Blocks(data) && st.r.buf == Padded(data)[..128 * k]
            && (st.s.Sending? ==> k == st.s.i || k == st.s.i + 1)
            && (st.s.Ending? ==> k == Blocks(data))
            && (forall j :: st.frames[j] <= 10)
            && (st.r.Finished? && st.r.result.Got? ==> st.r.result.data == Trim(data) && k == Blocks(data))
            && (st.s == Stopped(None) ==> st.r == Finished(Padded(data), Got(Trim(data))))
  {
    RunInv(data, limit, run);
  }
}
