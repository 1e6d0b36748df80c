/** The Telnet side of a caller's connection: the IAC parser, its replies, and buffered reading. */
module Telnet {
  import opened Bytes
  import opened Wires

  const IAC: byte := 255
  const SE: byte := 240
  const SB: byte := 250
  const WILL: byte := 251
  const WONT: byte := 252
  const DO: byte := 253
  const DONT: byte := 254

  const ECHO: byte := 1
  const SGA: byte := 3
  const TTYPE: byte := 24
  const NAWS: byte := 31

  const TTYPE_IS: byte := 0
  const TTYPE_SEND: byte := 1

  /** The opening offers: we echo, suppress go-ahead, and ask for window size and terminal type. */
  const OPENING: seq<byte> := [
    IAC, WILL, ECHO,
    IAC, WILL, SGA,
    IAC, DO, NAWS,
    IAC, DO, TTYPE,
    IAC, SB, TTYPE, TTYPE_SEND, IAC, SE
  ]

  /** InSubIac is inside a subnegotiation, after an IAC. */
  datatype State = InData | InIac | InOption | InSub | InSubIac

  datatype WindowSize = WindowSize(cols: bv16, rows: bv16)

  /** What the parser remembers between bytes, what it has learnt about the terminal, and the window sizes
      it has announced that nobody has taken yet. */
  datatype Core = Core(state: State, cmd: byte, subOpt: byte, subData: seq<byte>,
                       term: seq<byte>, win: WindowSize, changes: seq<WindowSize>)

  const START := Core(InData, 0, 0, [], [], WindowSize(0, 0), [])

  const CHANGES_MAX := 8

  /** A send that does not wait: with the queue full, the newest size is not announced. */
  function Announce(changes: seq<WindowSize>, size: WindowSize): seq<WindowSize> {
    if |changes| < CHANGES_MAX then changes + [size] else changes
  }

  /** A new core, the data bytes decoded on the way to it, and the replies written. */
  datatype Fed = Fed(core: Core, data: seq<byte>, replies: seq<byte>)

  /** The reply to WILL, WONT, DO or DONT: accept the options in use, refuse the rest. */
  function ReplyTo(cmd: byte, opt: byte): seq<byte> {
    if cmd == DO then
      if opt == ECHO || opt == SGA then [] else [IAC, WONT, opt]
    else if cmd == DONT then [IAC, WONT, opt]
    else if cmd == WILL then
      if opt == TTYPE || opt == NAWS then [] else [IAC, DONT, opt]
    else if cmd == WONT then [IAC, DONT, opt]
    else []
  }

  /** The effect of a completed subnegotiation. */
  function Learn(c: Core): Core {
    if c.subOpt == NAWS && |c.subData| >= 4 then
      var size := WindowSize(Join(c.subData[0], c.subData[1]), Join(c.subData[2], c.subData[3]));
      c.(win := size, changes := Announce(c.changes, size))
    else if c.subOpt == TTYPE && |c.subData| >= 1 && c.subData[0] == TTYPE_IS && c.term == [] then
      c.(term := TrimSpace(c.subData[1..]))
    else c
  }

  function FeedByte(c: Core, b: byte): Fed {
    match c.state
    case InData =>
      if b == IAC then Fed(c.(state := InIac), [], []) else Fed(c, [b], [])
    case InIac =>
      if b == IAC then Fed(c.(state := InData), [IAC], [])
      else if b == SB then Fed(c.(state := InSub, subOpt := 0, subData := []), [], [])
      else if b in [WILL, WONT, DO, DONT] then Fed(c.(state := InOption, cmd := b), [], [])
      else Fed(c.(state := InData), [], [])
    case InOption =>
      Fed(c.(state := InData), [], ReplyTo(c.cmd, b))
    case InSub =>
      if c.subOpt == 0 && b != IAC then Fed(c.(subOpt := b), [], [])
      else if b == IAC then Fed(c.(state := InSubIac), [], [])
      else Fed(c.(subData := c.subData + [b]), [], [])
    case InSubIac =>
      if b == SE then Fed(Learn(c).(state := InData), [], [])
      else Fed(c.(state := InSub, subData := c.subData + [b]), [], [])
  }

  /** The one-shot decoder. */
  function FeedAll(c: Core, raw: seq<byte>): Fed
    decreases |raw|
  {
    if raw == [] then Fed(c, [], [])
    else
      var one := FeedByte(c, raw[0]);
      var rest := FeedAll(one.core, raw[1..]);
      Fed(rest.core, one.data + rest.data, one.replies + rest.replies)
  }

  /** Chunk independence: however the wire is cut, the decoder finds the same. */
  lemma {:induction false} FeedConcat(c: Core, x: seq<byte>, y: seq<byte>)
    ensures var first := FeedAll(c, x);
            var second := FeedAll(first.core, y);
            FeedAll(c, x + y) == Fed(second.core, first.data + second.data, first.replies + second.replies)
    decreases |x|
  {
    hide FeedByte;
    if x == [] {
      assert x + y == y;
    } else {
      assert (x + y)[1..] == x[1..] + y;
      FeedConcat(FeedByte(c, x[0]).core, x[1..], y);
    }
  }

  // ---------------------------------------------------------------------------
  // Output never outgrows input
  // ---------------------------------------------------------------------------

  /** Bytes read in the current command and not yet accounted for by any output. */
  function Slack(c: Core): nat {
    match c.state
    case InData => 0
    case InIac => 1
    case _ => 2
  }

  lemma {:induction false} OutputBounded(c: Core, raw: seq<byte>)
    ensures var f := FeedAll(c, raw);
            |f.data| + |f.replies| + |f.core.subData| + Slack(f.core) <= |raw| + |c.subData| + Slack(c)
    decreases |raw|
  {
    if raw != [] {
      ByteBounded(c, raw[0]);
      hide FeedByte, Slack;
      OutputBounded(FeedByte(c, raw[0]).core, raw[1..]);
    }
  }

  lemma ByteBounded(c: Core, b: byte)
    ensures var f := FeedByte(c, b);
            |f.data| + |f.replies| + |f.core.subData| + Slack(f.core) <= 1 + |c.subData| + Slack(c)
  {
    hide ReplyTo, Learn;
    match c.state
    case InData =>
    case InIac =>
    case InOption =>
      ReplyIsShort(c.cmd, b);
    case InSub =>
      hide Slack;
      SubByteBounded(c, b);
    case InSubIac =>
      hide Slack;
      SubByteBounded(c, b);
  }

  lemma SubByteBounded(c: Core, b: byte)
    requires c.state == InSub || c.state == InSubIac
    ensures var f := FeedByte(c, b);
            && f.data == [] && f.replies == [] && |f.core.subData| <= |c.subData| + 1
            && Slack(f.core) <= Slack(c) == 2
  {
    LearnKeeps(c);
    hide Learn;
  }

  lemma ReplyIsShort(cmd: byte, opt: byte)
    ensures |ReplyTo(cmd, opt)| <= 3
  {
  }

  lemma LearnKeeps(c: Core)
    ensures Learn(c).subData == c.subData
  {
    hide TrimSpace, Join, Announce;
  }

  // ---------------------------------------------------------------------------
  // Reading through a buffer
  // ---------------------------------------------------------------------------

  /** A connection as a value: the parser, decoded bytes not yet returned, replies written, and what
      the underlying reads will bring; past the last of them every read fails. */
  datatype Conn = Conn(core: Core, pending: seq<byte>, replies: seq<byte>, raw: seq<RawRead>) {
    function NextRaw(): RawRead {
      if raw == [] then RawRead([], true) else raw[0]
    }

    /** After one underlying read. */
    function Fetch(): Conn {
      if raw == [] then this
      else
        var f := FeedAll(core, raw[0].bytes);
        Conn(f.core, pending + f.data, replies + f.replies, raw[1..])
    }
  }

  datatype ReadResult = ReadResult(conn: Conn, bytes: seq<byte>, err: bool)

  /** A read with room for `len` bytes. */
  function ReadCall(c: Conn, len: nat): ReadResult
    decreases |c.raw|
  {
    if c.pending != [] then Take(c, len)
    else if c.NextRaw().err then
      var c' := c.Fetch();
      if c'.pending != [] then Take(c', len) else ReadResult(c', [], true)
    else ReadCall(c.Fetch(), len)
  }

  function Take(c: Conn, len: nat): ReadResult {
    var n := if len < |c.pending| then len else |c.pending|;
    ReadResult(c.(pending := c.pending[n..]), c.pending[..n], false)
  }

  class TelnetConn {
    var raw: seq<RawRead>
    var replies: seq<byte>
    var term: seq<byte>
    var win: WindowSize
    var winCh: seq<WindowSize>
    var state: State
    var cmd: byte
    var subOpt: byte
    var subData: seq<byte>
    var pending: seq<byte>

    function CoreNow(): Core
      reads this
    {
      Core(state, cmd, subOpt, subData, term, win, winCh)
    }

    function Now(): Conn
      reads this
    {
      Conn(CoreNow(), pending, replies, raw)
    }

    constructor (raw: seq<RawRead>)
      ensures Now() == Conn(START, [], OPENING, raw)
    {
      this.raw, replies, term, win, winCh := raw, OPENING, [], WindowSize(0, 0), [];
      state, cmd, subOpt, subData, pending := InData, 0, 0, [], [];
    }

    method Respond(cmd: byte, opt: byte)
      modifies this`replies
      ensures replies == old(replies) + ReplyTo(cmd, opt)
    {
      if cmd == DO {
        if opt == ECHO || opt == SGA {
          return;
        }
        replies := replies + [IAC, WONT, opt];
      } else if cmd == DONT {
        replies := replies + [IAC, WONT, opt];
      } else if cmd == WILL {
        if opt == TTYPE || opt == NAWS {
          return;
        }
        replies := replies + [IAC, DONT, opt];
      } else if cmd == WONT {
        replies := replies + [IAC, DONT, opt];
      }
    }

    method EndSubneg()
      modifies this`win, this`winCh, this`term
      ensures CoreNow() == Learn(old(CoreNow()))
    {
      if subOpt == NAWS {
        if |subData| >= 4 {
          win := WindowSize(Join(subData[0], subData[1]), Join(subData[2], subData[3]));
          if |winCh| < CHANGES_MAX {
            winCh := winCh + [win];
          }
        }
      } else if subOpt == TTYPE {
        if |subData| >= 1 && subData[0] == TTYPE_IS {
          var t := TrimSpace(subData[1..]);
          if term == [] {
            term := t;
          }
        }
      }
    }

    method FeedOne(b: byte)
      modifies this
      ensures raw == old(raw)
      ensures var f := FeedByte(old(CoreNow()), b);
              && CoreNow() == f.core
              && pending == old(pending) + f.data && replies == old(replies) + f.replies
    {
      hide Learn, ReplyTo;
      match state {
        case InData =>
          if b == IAC {
            state := InIac;
          } else {
            pending := pending + [b];
          }
        case InIac =>
          if b == IAC {
            pending := pending + [IAC];
            state := InData;
          } else if b == SB {
            state := InSub;
            subOpt := 0;
            subData := [];
          } else if b == WILL || b == WONT || b == DO || b == DONT {
            cmd := b;
            state := InOption;
          } else {
            state := InData;
          }
        case InOption =>
          Respond(cmd, b);
          state := InData;
        case InSub =>
          if subOpt == 0 && b != IAC {
            subOpt := b;
          } else if b == IAC {
            state := InSubIac;
          } else {
            subData := subData + [b];
          }
        case InSubIac =>
          if b == SE {
            EndSubneg();
            state := InData;
          } else {
            subData := subData + [b];
            state := InSub;
          }
      }
    }

    method Feed(chunk: seq<byte>)
      modifies this
      ensures raw == old(raw)
      ensures var f := FeedAll(old(CoreNow()), chunk);
              && CoreNow() == f.core
              && pending == old(pending) + f.data && replies == old(replies) + f.replies
    {
      hide FeedByte;
      ghost var whole := FeedAll(CoreNow(), chunk);
      for k := 0 to |chunk|
        invariant raw == old(raw)
        invariant var rest := FeedAll(CoreNow(), chunk[k..]);
                  && whole.core == rest.core
                  && old(pending) + whole.data == pending + rest.data
                  && old(replies) + whole.replies == replies + rest.replies
      {
        assert chunk[k..][1..] == chunk[k + 1..];
        FeedOne(chunk[k]);
      }
      assert chunk[|chunk|..] == [];
    }

    /** Reads from the connection until something is decoded or the connection fails. */
    method Read(len: nat) returns (p: seq<byte>, err: bool)
      modifies this
      ensures ReadResult(Now(), p, err) == ReadCall(old(Now()), len)
    {
      hide FeedAll;
      ghost var whole := ReadCall(Now(), len);
      while |pending| == 0
        invariant whole == ReadCall(Now(), len)
        decreases |raw|
      {
        ghost var c := Now();
        var r := if raw == [] then RawRead([], true) else raw[0];
        if raw != [] {
          raw := raw[1..];
        }
        if |r.bytes| > 0 {
          Feed(r.bytes);
        } else {
          FeedNothing(CoreNow());
        }
        assert Now() == c.Fetch();
        if r.err {
          if |pending| > 0 {
            break;
          }
          return [], true;
        }
      }
      assert whole == Take(Now(), len);
      var n := if len < |pending| then len else |pending|;
      p := pending[..n];
      pending := pending[n..];
      err := false;
    }
  }

  lemma FeedNothing(c: Core)
    ensures FeedAll(c, []) == Fed(c, [], [])
  {
  }

  // ---------------------------------------------------------------------------
  // Read refines the one-shot decoder
  // ---------------------------------------------------------------------------

  /** The bytes a series of reads with the given buffer sizes returns, and the connection after it. */
  function ReadAll(c: Conn, sizes: seq<nat>): (Conn, seq<byte>)
    decreases |sizes|
  {
    if sizes == [] then (c, [])
    else
      var r := ReadCall(c, sizes[0]);
      var (c', more) := ReadAll(r.conn, sizes[1..]);
      (c', r.bytes + more)
  }

  /** `c'` follows `c` by consuming `used` from the wire and returning `got` to the caller. */
  ghost predicate Follows(c: Conn, used: seq<byte>, got: seq<byte>, c': Conn) {
    var f := FeedAll(c.core, used);
    && Flatten(c.raw) == used + Flatten(c'.raw)
    && c'.core == f.core
    && c.pending + f.data == got + c'.pending
    && c'.replies == c.replies + f.replies
  }

  lemma FollowsTrans(c: Conn, x: seq<byte>, got: seq<byte>, c': Conn, y: seq<byte>, more: seq<byte>, c'': Conn)
    requires Follows(c, x, got, c') && Follows(c', y, more, c'')
    ensures Follows(c, x + y, got + more, c'')
  {
    FeedConcat(c.core, x, y);
    hide FeedAll;
    var f, g := FeedAll(c.core, x), FeedAll(c'.core, y);
    assert c.pending + (f.data + g.data) == (c.pending + f.data) + g.data == got + (c'.pending + g.data);
    assert (x + y) + Flatten(c''.raw) == x + (y + Flatten(c''.raw));
  }

  lemma FetchFollows(c: Conn) returns (used: seq<byte>)
    ensures Follows(c, used, [], c.Fetch())
  {
    hide FeedAll;
    used := c.NextRaw().bytes;
    if c.raw == [] {
      FeedNothing(c.core);
    }
  }

  lemma TakeFollows(c: Conn, len: nat)
    ensures var r := Take(c, len); Follows(c, [], r.bytes, r.conn)
  {
    FeedNothing(c.core);
  }

  lemma {:induction false} ReadFollows(c: Conn, len: nat) returns (used: seq<byte>)
    ensures var r := ReadCall(c, len); Follows(c, used, r.bytes, r.conn)
    decreases |c.raw|
  {
    hide Follows, Take;
    if c.pending != [] {
      used := [];
      TakeFollows(c, len);
    } else {
      var c' := c.Fetch();
      var x := FetchFollows(c);
      var r := ReadCall(c, len);
      if c.NextRaw().err {
        if c'.pending != [] {
          TakeFollows(c', len);
          FollowsTrans(c, x, [], c', [], r.bytes, r.conn);
          used := x + [];
          assert [] + r.bytes == r.bytes;
        } else {
          used := x;
        }
      } else {
        assert c'.raw == c.raw[1..];
        var y := ReadFollows(c', len);
        used := x + y;
        FollowsTrans(c, x, [], c', y, r.bytes, r.conn);
        assert [] + r.bytes == r.bytes;
      }
    }
  }

  /** A read makes `n` underlying reads (past the last of them, one that fails): none if data is pending, else as
      many as it takes for data to come or a read to fail. It reports failure only without data, and otherwise
      returns as much of the data as fits. */
  ghost predicate ReadsJust(c: Conn, len: nat, r: ReadResult, n: nat) {
    && n <= |c.raw| + 1
    && var m := if n <= |c.raw| then n else |c.raw|;
       var have := c.pending + FeedAll(c.core, Flatten(c.raw[..m])).data;
       && r.conn.raw == c.raw[m..]
       && (c.pending != [] ==> n == 0)
       && (forall k :: 0 <= k < n - 1 ==> !c.raw[k].err)
       && (forall k :: 0 <= k < n && k <= |c.raw| ==> FeedAll(c.core, Flatten(c.raw[..k])).data == [])
       && (if r.err then
             have == [] && r.bytes == [] && n > 0 && (n > |c.raw| || c.raw[n - 1].err)
           else
             have != [] && r.bytes + r.conn.pending == have && |r.bytes| <= len
             && (|r.bytes| == len || r.conn.pending == []))
  }

  lemma TakesAll(c: Conn, len: nat)
    requires c.pending != []
    ensures ReadsJust(c, len, Take(c, len), 0)
  {
    FeedNothing(c.core);
    assert c.raw[..0] == [] && c.raw[0..] == c.raw;
    assert c.pending + [] == c.pending;
  }

  lemma {:induction false} ReadExactly(c: Conn, len: nat) returns (n: nat)
    ensures ReadsJust(c, len, ReadCall(c, len), n)
    decreases |c.raw|
  {
    hide FeedAll, ReadsJust;
    var r := ReadCall(c, len);
    if c.pending != [] {
      n := 0;
      TakesAll(c, len);
    } else if c.raw == [] {
      n := 1;
      NoMoreReads(c, len);
    } else {
      var c' := c.Fetch();
      if c.raw[0].err || c'.pending != [] {
        n := 1;
        OneRead(c, len);
      } else {
        var more := ReadExactly(c', len);
        n := more + 1;
        ReadsOn(c, len, r, more);
      }
    }
  }

  lemma NoMoreReads(c: Conn, len: nat)
    requires c.pending == [] && c.raw == []
    ensures ReadsJust(c, len, ReadCall(c, len), 1)
  {
    FeedNothing(c.core);
    assert c.raw[..0] == [];
  }

  lemma OneRead(c: Conn, len: nat)
    requires c.pending == [] && c.raw != [] && (c.raw[0].err || c.Fetch().pending != [])
    ensures ReadsJust(c, len, ReadCall(c, len), 1)
  {
    FeedNothing(c.core);
    assert c.raw[..0] == [] && c.raw[..1] == [c.raw[0]] && [c.raw[0]][1..] == [];
    assert Flatten(c.raw[..1]) == c.raw[0].bytes + [] == c.raw[0].bytes;
    hide FeedAll;
    var c' := c.Fetch();
    assert c'.pending == FeedAll(c.core, c.raw[0].bytes).data;
    if c'.pending != [] {
      assert ReadCall(c, len) == Take(c', len) by {
        assert !c.raw[0].err ==> ReadCall(c', len) == Take(c', len);
      }
    }
  }

  /** After a first read that brought no data, what `k` more bring is what they bring to the connection after it. */
  lemma AfterEmptyRead(c: Conn, k: nat)
    requires c.pending == [] && c.raw != [] && c.Fetch().pending == [] && k < |c.raw|
    ensures FeedAll(c.core, Flatten(c.raw[..k + 1])).data == FeedAll(c.Fetch().core, Flatten(c.Fetch().raw[..k])).data
  {
    hide FeedAll;
    var c' := c.Fetch();
    assert c.raw[..k + 1][1..] == c'.raw[..k];
    FeedConcat(c.core, c.raw[0].bytes, Flatten(c'.raw[..k]));
  }

  /** One read that neither fails nor brings data, before the others. */
  lemma ReadsOn(c: Conn, len: nat, r: ReadResult, more: nat)
    requires c.pending == [] && c.raw != [] && !c.raw[0].err && c.Fetch().pending == []
    requires ReadsJust(c.Fetch(), len, r, more)
    ensures ReadsJust(c, len, r, more + 1)
  {
    hide FeedAll, Flatten;
    var c' := c.Fetch();
    assert c'.raw == c.raw[1..];
    forall k | 0 <= k < more + 1 && k <= |c.raw| ensures FeedAll(c.core, Flatten(c.raw[..k])).data == [] {
      if k == 0 {
        assert c.raw[..0] == [];
        FlattenNothing();
        FeedNothing(c.core);
      } else {
        AfterEmptyRead(c, k - 1);
      }
    }
    forall k | 0 <= k < more ensures !c.raw[k].err {
      assert k > 0 ==> c.raw[k] == c'.raw[k - 1];
    }
    var m := if more <= |c'.raw| then more else |c'.raw|;
    AfterEmptyRead(c, m);
    assert c.raw[m + 1..] == c'.raw[m..];
    assert r.err && more < |c.raw| ==> c.raw[more] == c'.raw[more - 1];
  }

  lemma FlattenNothing()
    ensures Flatten([]) == []
  {
  }

  /** For every way the wire is cut into reads and every sequence of caller buffer sizes: the bytes
      returned, followed by the bytes pending, are the one-shot decoding of the bytes consumed, and so
      are the replies; together with what a subnegotiation retains they never outnumber those bytes. */
  lemma {:induction false} ReadRefinesDecoder(c: Conn, sizes: seq<nat>) returns (used: seq<byte>)
    ensures var (c', got) := ReadAll(c, sizes);
            var f := FeedAll(c.core, used);
            && Flatten(c.raw) == used + Flatten(c'.raw)
            && c.pending + f.data == got + c'.pending
            && c'.replies == c.replies + f.replies
            && c'.core == f.core
            && |f.data| + |f.replies| + |f.core.subData| <= |used| + |c.core.subData| + Slack(c.core)
    decreases |sizes|
  {
    if sizes == [] {
      used := [];
      FeedNothing(c.core);
    } else {
      var r := ReadCall(c, sizes[0]);
      var x := ReadFollows(c, sizes[0]);
      var y := ReadRefinesDecoder(r.conn, sizes[1..]);
      var (c', more) := ReadAll(r.conn, sizes[1..]);
      FollowsTrans(c, x, r.bytes, r.conn, y, more, c');
      used := x + y;
    }
    OutputBounded(c.core, used);
  }
}
