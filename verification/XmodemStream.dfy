/** Whole transfers over an undamaged stream, and what the size limit bounds. */
module XmodemStream {
  import opened Bytes
  import opened Crc
  import opened Wires
  import opened Xmodem

  // ---------------------------------------------------------------------------
  // Padding and trimming
  // ---------------------------------------------------------------------------

  lemma {:induction false} TrimPadding(b: seq<byte>, n: nat)
    ensures Trim(b + Repeat(SUB, n)) == Trim(b)
  {
    var p := b + Repeat(SUB, n);
    if n == 0 {
      assert p == b;
    } else {
      assert p[..|p| - 1] == b + Repeat(SUB, n - 1);
      TrimPadding(b, n - 1);
    }
  }

  /** Trimming removes a run of SUB from the end, and all of it. */
  lemma {:induction false} TrimIsMaximal(b: seq<byte>)
    ensures |Trim(b)| <= |b| && b == Trim(b) + Repeat(SUB, |b| - |Trim(b)|)
    ensures Trim(b) == [] || Trim(b)[|Trim(b)| - 1] != SUB
  {
    if b != [] && b[|b| - 1] == SUB {
      TrimIsMaximal(b[..|b| - 1]);
    }
  }

  lemma TrimPadded(data: seq<byte>)
    ensures Trim(Padded(data)) == Trim(data)
  {
    TrimPadding(data, BLOCK * Blocks(data) - |data|);
  }

  // ---------------------------------------------------------------------------
  // The size limit
  // ---------------------------------------------------------------------------

  /** The receiver's state once it has read all of `input`. */
  function ReceiverAfter(limit: int, r: Receiver, input: seq<byte>): (r': Receiver)
    requires ReceiverOk(r)
    ensures ReceiverOk(r')
    decreases |input|
  {
    if input == [] then r else ReceiverAfter(limit, ReceiverNext(limit, r, input[0]).0, input[1..])
  }

  ghost predicate Bounded(limit: int, r: Receiver) {
    if r.Finished? then
      && |r.buf| <= limit + BLOCK
      && (r.result.Got? ==> |r.result.data| <= limit && r.result.data == Trim(r.buf))
    else |r.buf| <= limit
  }

  lemma BoundedStep(limit: int, r: Receiver, b: byte)
    requires limit > 0 && ReceiverOk(r) && Bounded(limit, r)
    ensures Bounded(limit, ReceiverNext(limit, r, b).0)
  {
    hide GoodHeader, GoodCheck;
    if r.Idle? && b == EOT {
      TrimIsMaximal(r.buf);
    }
  }

  lemma {:induction false} BoundedAfter(limit: int, r: Receiver, input: seq<byte>)
    requires limit > 0 && ReceiverOk(r) && Bounded(limit, r)
    ensures Bounded(limit, ReceiverAfter(limit, r, input))
    decreases |input|
  {
    hide ReceiverNext;
    if input != [] {
      BoundedStep(limit, r, input[0]);
      BoundedAfter(limit, ReceiverNext(limit, r, input[0]).0, input[1..]);
    }
  }

  lemma {:induction false} FinishedStays(limit: int, r: Receiver, input: seq<byte>)
    requires r.Finished?
    ensures ReceiverAfter(limit, r, input) == r
    decreases |input|
  {
    if input != [] {
      FinishedStays(limit, r, input[1..]);
    }
  }

  lemma {:induction false} RunFollowsState(limit: int, r: Receiver, v: View)
    requires ReceiverOk(r)
    ensures var last := ReceiverAfter(limit, r, v.input);
            ReceiveRun(limit, r, v).result == if last.Finished? then last.result else Failed(ErrIO)
    decreases |v.input|
  {
    hide ReceiverNext;
    if r.Finished? {
      FinishedStays(limit, r, v.input);
    } else if v.input != [] {
      var (r', w) := ReceiverNext(limit, r, v.input[0]);
      RunFollowsState(limit, r', if w == [] then v.Next() else v.Next().PutIfOpen(w));
    }
  }

  /** Whatever the peer sends, and however much of it has been read, a limited receiver holds at most
      one block more than the limit, and it never returns more than the limit. */
  lemma UploadBounded(limit: int, v: View, k: nat)
    requires limit > 0 && k <= |v.input|
    ensures |ReceiverAfter(limit, Idle([], 1), v.input[..k]).buf| <= limit + 128
    ensures var r := ReceiveCall(limit, v).result;
            r.Got? ==> |r.data| <= limit
  {
    BoundedAfter(limit, Idle([], 1), v.input[..k]);
    BoundedAfter(limit, Idle([], 1), v.input);
    if v.room > 0 {
      RunFollowsState(limit, Idle([], 1), v.Put([START]));
    }
  }

  // ---------------------------------------------------------------------------
  // Clean transfers
  // ---------------------------------------------------------------------------

  /** What a CRC-mode sender puts on a perfect line, from block `i` on. */
  function Stream(data: seq<byte>, i: nat, block: byte): seq<byte>
    requires i <= Blocks(data)
    decreases Blocks(data) - i
  {
    if i == Blocks(data) then [EOT]
    else Frame(block, Chunk(data, i), true) + Stream(data, i + 1, block + 1)
  }

  lemma SendAcked(data: seq<byte>, i: nat, block: byte, v: View)
    requires i < Blocks(data)
    requires v.input != [] && v.input[0] == ACK && v.room > 0
    ensures SendRun(data, Sending(i, block, 0, true), v) ==
            SendRun(data, AfterBlock(data, i, block, true), v.Put(Frame(block, Chunk(data, i), true)).Next())
  {
    hide Frame, Chunk, Blocks;
  }

  lemma EotAcked(data: seq<byte>, v: View)
    requires v.input == [ACK] && v.room > 0
    ensures SendRun(data, Ending(0), v) == Run(None, v.Put([EOT]).Next())
  {
    assert SendRun(data, Ending(0), v) == SendRun(data, Stopped(None), v.Put([EOT]).Next());
  }

  lemma {:induction false} SendClean(data: seq<byte>, i: nat, block: byte, v: View)
    requires i < Blocks(data)
    requires v.input == Repeat(ACK, Blocks(data) - i + 1) && v.room > Blocks(data) - i
    ensures var run := SendRun(data, Sending(i, block, 0, true), v);
            && run.result == None
            && run.wire.input == []
            && run.wire.output == v.output + Stream(data, i, block)
    decreases Blocks(data) - i
  {
    hide Frame, Chunk, Blocks, SendRun;
    var frame := Frame(block, Chunk(data, i), true);
    var v' := v.Put(frame).Next();
    assert v'.input == Repeat(ACK, Blocks(data) - i);
    SendAcked(data, i, block, v);
    var rest := Stream(data, i + 1, block + 1);
    assert (v.output + frame) + rest == v.output + Stream(data, i, block);
    if i + 1 < Blocks(data) {
      SendClean(data, i + 1, block + 1, v');
    } else {
      assert v'.input == [ACK];
      EotAcked(data, v');
    }
  }

  /** What follows SOH, piece by piece. */
  lemma RestParts(a: byte, b: byte, data: seq<byte>, ck: seq<byte>)
    requires |data| == BLOCK && |ck| == 2
    ensures var rest := [a, b] + (data + ck);
            && |rest| == FRAME_REST && rest[0] == a && rest[1] == b && FrameData(rest) == data
            && rest[130] == ck[0] && rest[131] == ck[1]
  {
  }

  lemma FrameLayout(block: byte, chunk: seq<byte>)
    requires |chunk| == BLOCK
    ensures var f := Frame(block, chunk, true);
            |f| == 1 + FRAME_REST && f[1..] == [block, 255 - block] + (chunk + CrcBytes(Crc16(chunk)))
  {
    hide Crc16, CrcBytes;
  }

  lemma FrameParts(block: byte, chunk: seq<byte>)
    requires |chunk| == BLOCK
    ensures var f := Frame(block, chunk, true);
            && |f| == 1 + FRAME_REST
            && GoodHeader(f[1..]) && GoodCheck(f[1..])
            && f[1] == block && FrameData(f[1..]) == chunk
  {
    var ck := CrcBytes(Crc16(chunk));
    JoinSplit(Crc16(chunk));
    HeaderComplement(block);
    hide Crc16, Join, Hi, Lo, Frame, FrameData;
    FrameLayout(block, chunk);
    RestParts(block, 255 - block, chunk, ck);
    assert Frame(block, chunk, true)[1] == Frame(block, chunk, true)[1..][0];
  }

  /** A frame at the head of a stream. */
  lemma FrameFirst(block: byte, chunk: seq<byte>, rest: seq<byte>)
    requires |chunk| == BLOCK
    ensures var f := Frame(block, chunk, true);
            && |f| == 1 + FRAME_REST && |f + rest| >= |f|
            && (f + rest)[0] == SOH && (f + rest)[1..][..FRAME_REST] == f[1..]
            && (f + rest)[1..][FRAME_REST..] == rest
  {
    FrameParts(block, chunk);
    var f := Frame(block, chunk, true);
    assert f[0] == SOH;
    hide Frame;
  }

  lemma HeaderComplement(block: byte)
    ensures block == 255 - (255 - block)
  {
  }

  /** The verdict on an intact frame with the number the receiver expects. */
  lemma FrameAccepted(limit: int, buf: seq<byte>, block: byte, chunk: seq<byte>)
    requires |chunk| == BLOCK
    ensures var f := Frame(block, chunk, true);
            |f| == 1 + FRAME_REST && Judge(limit, buf, block, f[1..]) ==
            if limit > 0 && |buf + chunk| > limit then (Finished(buf + chunk, Failed(ErrTooBig)), [CAN, CAN])
            else (Idle(buf + chunk, block + 1), [ACK])
  {
    FrameParts(block, chunk);
    assert Frame(block, chunk, true)[1..][0] == block;
    hide Frame, GoodHeader, GoodCheck, FrameData;
  }

  /** A receiver that has the first `i` blocks and sees the rest of a clean stream. */
  lemma {:induction false} ReceiveClean(limit: int, data: seq<byte>, i: nat, block: byte, v: View)
    requires i <= Blocks(data)
    requires limit <= 0 || BLOCK * i <= limit
    requires v.input == Stream(data, i, block)
    ensures ReceiveRun(limit, Idle(Padded(data)[..BLOCK * i], block), v).result ==
            if limit <= 0 || BLOCK * Blocks(data) <= limit then Got(Trim(data)) else Failed(ErrTooBig)
    decreases Blocks(data) - i
  {
    hide Frame, Chunk, Blocks, Padded, Judge;
    var buf := Padded(data)[..BLOCK * i];
    var r := Idle(buf, block);
    if i == Blocks(data) {
      assert buf == Padded(data);
      TrimPadded(data);
      assert ReceiverNext(limit, r, EOT) == (Finished(buf, Got(Trim(buf))), [ACK]);
    } else {
      var chunk := Chunk(data, i);
      var rest := Stream(data, i + 1, block + 1);
      FrameAccepted(limit, buf, block, chunk);
      FrameFirst(block, chunk, rest);
      ChunkOfPadded(data, i);
      assert buf + chunk == Padded(data)[..BLOCK * (i + 1)];
      var f := v.Next().input[..FRAME_REST];
      assert [] + f == f;
      FrameAbsorbed(limit, buf, block, [], v.Next());
      var (r', w) := Judge(limit, buf, block, f);
      var v' := v.(input := rest).PutIfOpen(w);
      assert ReceiveRun(limit, r, v) == ReceiveRun(limit, Framing(buf, block, []), v.Next());
      if limit <= 0 || BLOCK * (i + 1) <= limit {
        ReceiveClean(limit, data, i + 1, block + 1, v');
      }
    }
  }

  /** The replies a sender gets from a receiver to which nothing goes wrong. */
  function CleanReplies(data: seq<byte>): seq<byte> {
    [START] + Repeat(ACK, Blocks(data) + 1)
  }

  /** A sender given those replies succeeds, and what it writes is a stream that makes `Receive` return
      the payload without its trailing SUB bytes exactly when the padded payload is within the limit. So the
      payload comes back unchanged exactly when it fits and does not itself end in SUB. */
  lemma RoundTrip(data: seq<byte>, limit: int, v: View, u: View)
    requires v.input == CleanReplies(data) && v.output == [] && v.room > Blocks(data)
    requires u.input == SendRun(data, Starting(0), v).wire.output && u.room > 0
    ensures SendRun(data, Starting(0), v).result == None
    ensures ReceiveCall(limit, u).result ==
            if limit <= 0 || BLOCK * Blocks(data) <= limit then Got(Trim(data)) else Failed(ErrTooBig)
    ensures ReceiveCall(limit, u).result == Got(data) <==>
            (limit <= 0 || BLOCK * Blocks(data) <= limit) && (data == [] || data[|data| - 1] != SUB)
  {
    hide Stream, Blocks;
    TrimIsMaximal(data);
    assert v.Next().input == Repeat(ACK, Blocks(data) + 1);
    SendClean(data, 0, 1, v.Next());
    assert SendRun(data, Starting(0), v) == SendRun(data, Sending(0, 1, 0, true), v.Next());
    assert [] + Stream(data, 0, 1) == Stream(data, 0, 1);
    assert Padded(data)[..0] == [];
    ReceiveClean(limit, data, 0, 1, u.Put([START]));
  }

  /** With a limit of whole blocks, as the 10 MiB of the file library is, a clean upload of `data`
      succeeds exactly when its length is within the limit. */
  lemma UploadAccepted(data: seq<byte>, limit: int, u: View)
    requires limit > 0 && limit % BLOCK == 0
    requires u.input == Stream(data, 0, 1) && u.room > 0
    ensures ReceiveCall(limit, u).result.Got? <==> |data| <= limit
    ensures |data| <= limit ==> ReceiveCall(limit, u).result == Got(Trim(data))
    ensures |data| > limit ==> ReceiveCall(limit, u).result == Failed(ErrTooBig)
  {
    assert Padded(data)[..0] == [];
    ReceiveClean(limit, data, 0, 1, u.Put([START]));
    WholeBlocks(|data|, limit);
  }

  lemma WholeBlocks(len: nat, limit: int)
    requires limit > 0 && limit % BLOCK == 0
    ensures BLOCK * BlockCount(len) <= limit <==> len <= limit
  {
    var q := limit / BLOCK;
    assert limit == BLOCK * q;
    if BlockCount(len) > q {
      assert BLOCK * (BlockCount(len) - 1) >= BLOCK * q;
    }
  }
}
