/** Every transfer ends, and it ends in success when no block fails ten times. */
module XmodemProgress {
  import opened Bytes
  import opened Xmodem
  import opened XmodemLink
  import XmodemStream

  // ---------------------------------------------------------------------------
  // Every run is finite
  // ---------------------------------------------------------------------------

  /** How many frames and EOTs the sender may still write: blocks left, then tries left. */
  function AttemptsLeft(data: seq<byte>, s: Sender): nat
    requires SenderOk(data, s)
  {
    match s
    case Starting(_) => MAX_RETRIES * (Blocks(data) + 1)
    case Sending(i, _, tries, _) => MAX_RETRIES * (Blocks(data) - i) + MAX_RETRIES - 1 - tries
    case Ending(tries) => MAX_RETRIES - 1 - tries
    case Stopped(_) => 0
  }

  function Measure(data: seq<byte>, st: System): nat
    requires SenderOk(data, st.s)
  {
    400 * AttemptsLeft(data, st.s) + 3 * |st.fwd| + |st.back|
  }

  lemma SenderStepDecreases(data: seq<byte>, st: System, st': System, got: seq<byte>)
    requires SenderOk(data, st.s) && SenderStep(data, st, st', got)
    ensures Measure(data, st') < Measure(data, st)
  {
    hide Frame, Chunk, Blocks;
    var s' := st'.s;
    assert |Written(data, s')| <= 1 + FRAME_REST && |got| == |Written(data, s')|;
    assert Written(data, s') != [] ==> AttemptsLeft(data, s') < AttemptsLeft(data, st.s);
    assert AttemptsLeft(data, s') <= AttemptsLeft(data, st.s);
  }

  lemma ReceiverStepDecreases(data: seq<byte>, limit: int, st: System, st': System, got: seq<byte>)
    requires SenderOk(data, st.s) && ReceiverOk(st.r) && ReceiverStep(limit, st, st', got)
    ensures Measure(data, st') < Measure(data, st)
  {
    hide AttemptsLeft, GoodHeader, GoodCheck;
  }

  lemma StepDecreases(data: seq<byte>, limit: int, st: System, st': System)
    requires Step(data, limit, st, st')
    ensures SenderOk(data, st'.s) && Measure(data, st') < Measure(data, st)
  {
    hide Measure, AttemptsLeft;
    if got :| SenderStep(data, st, st', got) {
      SenderStepDecreases(data, st, st', got);
    } else {
      var got :| ReceiverStep(limit, st, st', got);
      ReceiverStepDecreases(data, limit, st, st', got);
    }
  }

  lemma {:induction false} RunLength(data: seq<byte>, limit: int, run: seq<System>)
    requires IsRun(data, limit, run)
    ensures SenderOk(data, run[|run| - 1].s)
    ensures |run| + Measure(data, run[|run| - 1]) <= 4000 * (Blocks(data) + 1) + 2
    decreases |run|
  {
    var last := run[|run| - 1];
    if |run| > 1 {
      hide Step, Measure, Init;
      var before := run[..|run| - 1];
      RunLength(data, limit, before);
      assert Step(data, limit, before[|before| - 1], last);
      StepDecreases(data, limit, before[|before| - 1], last);
    } else {
      assert Init(last);
    }
  }

  // ---------------------------------------------------------------------------
  // Fair runs: at most nine failed attempts a block
  // ---------------------------------------------------------------------------

  /** The sender is on its last try at a block, or is ending: what is said now must get through. Every
      earlier try at the block failed, so this is the promise that no block fails ten times. */
  predicate LastTry(s: Sender) {
    (s.Sending? && s.tries == MAX_RETRIES - 1) || s.Ending?
  }

  ghost predicate FairInit(st: System) {
    Init(st) && st.back == [START]
  }

  ghost predicate FairSenderStep(data: seq<byte>, st: System, st': System, got: seq<byte>)
    requires SenderOk(data, st.s)
  {
    && SenderStep(data, st, st', got)
    && (LastTry(st'.s) ==> got == Written(data, st'.s))
  }

  /** Replies are never turned into CAN, and on a last try they are not altered at all. */
  ghost predicate FairReceiverStep(limit: int, st: System, st': System, got: seq<byte>)
    requires ReceiverOk(st.r)
  {
    && ReceiverStep(limit, st, st', got)
    && var reply := ReceiverNext(limit, st.r, st.fwd[0]).1;
       && (LastTry(st.s) ==> got == reply)
       && (CAN !in reply ==> CAN !in got)
  }

  ghost predicate FairStep(data: seq<byte>, limit: int, st: System, st': System) {
    && SenderOk(data, st.s) && ReceiverOk(st.r)
    && ((exists got :: FairSenderStep(data, st, st', got)) || (exists got :: FairReceiverStep(limit, st, st', got)))
  }

  ghost predicate IsFairRun(data: seq<byte>, limit: int, run: seq<System>) {
    && run != [] && FairInit(run[0])
    && forall k :: 0 <= k < |run| - 1 ==> FairStep(data, limit, run[k], run[k + 1])
  }

  /** Some byte is waiting for a party that still reads. */
  predicate CanStep(st: System) {
    (!st.s.Stopped? && st.back != []) || (!st.r.Finished? && st.fwd != [])
  }

  ghost predicate Fits(data: seq<byte>, limit: int) {
    limit <= 0 || BLOCK * Blocks(data) <= limit
  }

  /** What a fair run keeps beyond the invariant. */
  ghost predicate FairInv(data: seq<byte>, st: System) {
    && Inv(data, st)
    && match st.s
       case Starting(tries) => st.back == [START]
       case Sending(i, block, tries, _) =>
         && !st.r.Finished? && CAN !in st.back
         && (LastTry(st.s) && st.back != [] ==> st.back == [ACK])
         && (LastTry(st.s) && st.back == [] ==> ArrivingIntact(Frame(block, Chunk(data, i), true), st.r, st.fwd))
       case Ending(tries) => st.r.Finished? ==> st.back == [ACK]
       case Stopped(err) => err == None
  }

  ghost predicate ArrivingIntact(sent: seq<byte>, r: Receiver, fwd: seq<byte>) {
    match r
    case Idle(_, _) => fwd == sent
    case Framing(_, _, part) => [SOH] + (part + fwd) == sent
    case Finished(_, _) => false
  }

  lemma FairInitInv(data: seq<byte>, st: System)
    requires FairInit(st)
    ensures FairInv(data, st)
  {
    InitInv(data, st);
  }

  lemma FairSenderStepInv(data: seq<byte>, st: System, st': System, got: seq<byte>)
    requires FairInv(data, st) && FairSenderStep(data, st, st', got)
    ensures FairInv(data, st')
  {
    SenderStepInv(data, st, st', got);
    hide Frame, Chunk, Blocks, Padded, Detectable, Trim, Prefix, FramesOk, BlockByte, HasBlocks, Count;
    assert st.back[0] in st.back;
    assert !st.r.Finished? ==> st'.fwd == got;
  }

  /** The receiver reads a byte of an arriving frame before its last: it says nothing yet. */
  lemma FairArrivingInv(data: seq<byte>, limit: int, st: System, st': System, got: seq<byte>)
    requires FairInv(data, st) && ReceiverOk(st.r) && FairReceiverStep(limit, st, st', got)
    requires st.s.Sending? && !(st.r.Framing? && |st.r.part| == FRAME_REST - 1)
    ensures FairInv(data, st')
  {
    hide Inv, Frame, Chunk, Blocks, ReceiverStep;
    assert ReceiverStep(limit, st, st', got);
    ReceiverStepInv(data, limit, st, st', got);
    ArrivingQuietly(data, limit, st, st', got);
    hide FairReceiverStep;
    if LastTry(st.s) {
      var sent := Frame(st.s.block, Chunk(data, st.s.i), true);
      assert ArrivingIntact(sent, st.r, st.fwd);
      assert [SOH] + (st'.r.part + st'.fwd) == sent;
    }
  }

  lemma ArrivingQuietly(data: seq<byte>, limit: int, st: System, st': System, got: seq<byte>)
    requires Inv(data, st) && ReceiverOk(st.r) && ReceiverStep(limit, st, st', got)
    requires st.s.Sending? && !(st.r.Framing? && |st.r.part| == FRAME_REST - 1)
    ensures st.back == [] && st'.back == [] && st'.s == st.s && st'.r.Framing?
    ensures st.s.i < Blocks(data) && st.fwd == [st.fwd[0]] + st'.fwd
    ensures st.r.Idle? ==> st'.r.part == []
    ensures st.r.Framing? ==> st'.r.part == st.r.part + [st.fwd[0]]
  {
    hide Frame, Chunk, Blocks, Padded, Trim, Prefix, FramesOk, BlockByte, Judge, HasBlocks, Count;
  }

  /** The last byte of a frame brings a single ACK or NAK, and an ACK if the frame is intact. */
  lemma FairVerdict(data: seq<byte>, limit: int, st: System, st': System, got: seq<byte>)
    requires Fits(data, limit)
    requires FairInv(data, st) && ReceiverOk(st.r) && ReceiverStep(limit, st, st', got)
    requires st.s.Sending? && st.r.Framing? && |st.r.part| == FRAME_REST - 1
    ensures var reply := ReceiverNext(limit, st.r, st.fwd[0]).1;
            && (reply == [ACK] || reply == [NAK])
            && (LastTry(st.s) ==> reply == [ACK])
    ensures st'.s == st.s && st'.r.Idle? && st'.back == got && |got| == 1
  {
    hide Frame, Chunk, Padded, Trim, FramesOk, BlockByte, Judge;
    var i, k := st.s.i, Count(st.r);
    var frame := st.r.part + [st.fwd[0]];
    assert |st.fwd| == 1 && frame == st.r.part + st.fwd && st.back == [];
    Verdict(data, limit, i, k, frame);
  }

  lemma FairArrivedInv(data: seq<byte>, limit: int, st: System, st': System, got: seq<byte>)
    requires Fits(data, limit)
    requires FairInv(data, st) && ReceiverOk(st.r) && FairReceiverStep(limit, st, st', got)
    requires st.s.Sending? && st.r.Framing? && |st.r.part| == FRAME_REST - 1
    ensures FairInv(data, st')
  {
    FairVerdict(data, limit, st, st', got);
    ReceiverStepInv(data, limit, st, st', got);
    hide Inv, Frame, Chunk, Blocks, Judge, ReceiverStep, ReceiverNext;
  }

  lemma FairReceiverStepInv(data: seq<byte>, limit: int, st: System, st': System, got: seq<byte>)
    requires Fits(data, limit)
    requires FairInv(data, st) && ReceiverOk(st.r) && FairReceiverStep(limit, st, st', got)
    ensures FairInv(data, st')
  {
    if st.s.Sending? {
      hide Inv, ReceiverStep, ReceiverNext, Frame, Chunk, Blocks;
      if st.r.Framing? && |st.r.part| == FRAME_REST - 1 {
        FairArrivedInv(data, limit, st, st', got);
      } else {
        FairArrivingInv(data, limit, st, st', got);
      }
    } else {
      FairEotInv(data, limit, st, st', got);
    }
  }

  lemma FairEotInv(data: seq<byte>, limit: int, st: System, st': System, got: seq<byte>)
    requires FairInv(data, st) && ReceiverOk(st.r) && FairReceiverStep(limit, st, st', got)
    requires !st.s.Sending?
    ensures FairInv(data, st')
  {
    EotInv(data, limit, st, st', got);
    hide FramesOk, HasBlocks, Count, Blocks, Padded, Trim;
    assert st.fwd == [EOT] && st.back == [];
  }

  lemma FairStepInv(data: seq<byte>, limit: int, st: System, st': System)
    requires Fits(data, limit) && FairInv(data, st) && FairStep(data, limit, st, st')
    ensures FairInv(data, st') && Step(data, limit, st, st')
  {
    hide FairInv, SenderStep, ReceiverStep, ReceiverNext;
    if got :| FairSenderStep(data, st, st', got) {
      FairSenderStepInv(data, st, st', got);
    } else {
      var got :| FairReceiverStep(limit, st, st', got);
      FairReceiverStepInv(data, limit, st, st', got);
    }
  }

  lemma {:induction false} FairRunInv(data: seq<byte>, limit: int, run: seq<System>)
    requires Fits(data, limit) && IsFairRun(data, limit, run)
    ensures FairInv(data, run[|run| - 1]) && IsRun(data, limit, run)
    decreases |run|
  {
    hide FairInv, FairStep, Step, Init;
    var last := run[|run| - 1];
    if |run| == 1 {
      FairInitInv(data, last);
    } else {
      var before := run[..|run| - 1];
      FairRunInv(data, limit, before);
      assert FairStep(data, limit, before[|before| - 1], last);
      FairStepInv(data, limit, before[|before| - 1], last);
      assert run == before + [last];
    }
  }

  /** Where no party can read, a fair transfer has succeeded on both sides. */
  lemma StuckIsSuccess(data: seq<byte>, st: System)
    requires FairInv(data, st) && !CanStep(st)
    ensures st.s == Stopped(None) && st.r == Finished(Padded(data), Got(Trim(data)))
  {
    hide FramesOk, HasBlocks, Count, Padded, Trim, Frame;
  }

  /** And where a party can read, the line has a fair way to go on: it can deliver what was written. */
  lemma FairProgress(data: seq<byte>, limit: int, st: System) returns (st': System)
    requires FairInv(data, st) && CanStep(st) && ReceiverOk(st.r)
    ensures FairStep(data, limit, st, st')
  {
    if !st.s.Stopped? && st.back != [] {
      var s' := SenderNext(data, st.s, st.back[0]);
      var got := Written(data, s');
      IntactIsDetectable(data, s');
      st' := System(s', st.r, st.fwd + got, st.back[1..],
                    if s'.Sending? then st.frames + multiset{s'.i} else st.frames);
      assert FairSenderStep(data, st, st', got);
    } else {
      var (r', reply) := ReceiverNext(limit, st.r, st.fwd[0]);
      st' := st.(r := r', fwd := st.fwd[1..], back := st.back + reply);
      assert FairReceiverStep(limit, st, st', reply);
    }
  }

  lemma IntactIsDetectable(data: seq<byte>, s: Sender)
    requires SenderOk(data, s)
    ensures Forward(Written(data, s), Written(data, s))
  {
  }

  /** A transfer in which no block fails ten times, the opening 'C' and the reply to EOT get through, no
      reply becomes CAN and the file fits the limit: however its steps interleave, it takes a bounded
      number of them, and when it can take no more, `Send` has returned nil and `Receive` the payload
      without its trailing SUB bytes, the empty payload included. No block was sent more than ten times. */
  lemma Completion(data: seq<byte>, limit: int, run: seq<System>)
    requires Fits(data, limit) && IsFairRun(data, limit, run)
    ensures |run| <= 4000 * (Blocks(data) + 1) + 2
    ensures var last := run[|run| - 1];
            && (forall j :: last.frames[j] <= 10)
            && if CanStep(last) then exists next :: FairStep(data, limit, last, next)
               else last.s == Stopped(None) && last.r == Finished(Padded(data), Got(Trim(data)))
  {
    var last := run[|run| - 1];
    FairRunInv(data, limit, run);
    RunLength(data, limit, run);
    Safety(data, limit, run);
    hide IsFairRun, IsRun, FairStep, Measure;
    if CanStep(last) {
      LiveReceiverOk(data, last);
      var next := FairProgress(data, limit, last);
    } else {
      StuckIsSuccess(data, last);
    }
  }

  lemma LiveReceiverOk(data: seq<byte>, st: System)
    requires FairInv(data, st)
    ensures ReceiverOk(st.r)
  {
    hide Frame, Chunk, Blocks, Padded, Detectable, Trim, Prefix, FramesOk, BlockByte, HasBlocks, Count;
  }
}
