/** A caller's keyboard input: single bytes, keys, edited lines and passwords. */
module Session {
  import opened Bytes
  import opened Escapes

  const MAX_LINE_LEN := 4096
  const BACKSPACE: byte := 0x08
  const SPACE: byte := 0x20
  const CRLF: seq<byte> := [CR, LF]
  const RUBOUT: seq<byte> := [BACKSPACE, SPACE, BACKSPACE]

  predicate EndsLine(b: byte) {
    b == CR || b == LF
  }

  predicate Erases(b: byte) {
    b == BACKSPACE || b == DEL
  }

  // ---------------------------------------------------------------------------
  // Line editing as a machine over the bytes that `Pull` delivers
  // ---------------------------------------------------------------------------

  /** A line being edited: input not yet read, the buffer, and everything echoed for it so far. */
  datatype Line = Line(input: seq<byte>, buf: seq<byte>, echo: seq<byte>) {
    function Key(): Option<byte> {
      Pull(input).0
    }

    function Unread(): seq<byte> {
      Pull(input).1
    }

    /** The line is finished, or the caller has gone. */
    predicate Over() {
      Key() == None || EndsLine(Key().value)
    }

    /** The effect of one key that does not end the line. */
    function Step(): (next: Line)
      requires !Over()
      ensures |next.input| < |input|
    {
      var b := Key().value;
      if Erases(b) then
        if buf != [] then Line(Unread(), buf[..|buf| - 1], echo + RUBOUT) else Line(Unread(), buf, echo)
      else if b < 0x20 || |buf| >= MAX_LINE_LEN then Line(Unread(), buf, echo)
      else Line(Unread(), buf + [b], echo + [b])
    }
  }

  /** The line at the moment it is over. */
  function Last(l: Line): (last: Line)
    ensures last.Over()
    decreases |l.input|
  {
    if l.Over() then l else Last(l.Step())
  }

  lemma LastUnfolds(l: Line)
    ensures Last(l) == if l.Over() then l else Last(l.Step())
  {
  }

  /** The line after at most `n` keys. */
  function After(l: Line, n: nat): Line
    decreases n
  {
    if n == 0 || l.Over() then l else After(l.Step(), n - 1)
  }

  /** What reading a line returns, leaves unread, and has written; `shown` is the echo to write. */
  datatype Outcome = Outcome(line: Option<seq<byte>>, unread: seq<byte>, written: seq<byte>)

  function Finish(last: Line, shown: seq<byte>): Outcome
    requires last.Over()
  {
    if last.Key() == None then Outcome(None, [], shown)
    else Outcome(Some(last.buf), last.Unread(), shown + CRLF)
  }

  function LineOutcome(input: seq<byte>): Outcome {
    var last := Last(Line(input, [], []));
    Finish(last, last.echo)
  }

  // ---------------------------------------------------------------------------
  // The session
  // ---------------------------------------------------------------------------

  class Session {
    var input: seq<byte>
    var output: seq<byte>

    constructor (input: seq<byte>)
      ensures this.input == input && output == []
    {
      this.input, output := input, [];
    }

    method ReadByte() returns (b: Option<byte>)
      modifies this`input
      ensures old(input) == [] ==> b == None && input == []
      ensures old(input) != [] ==> b == Some(old(input)[0]) && input == old(input)[1..]
    {
      if input == [] {
        return None;
      }
      b := Some(input[0]);
      input := input[1..];
    }

    method Write(p: seq<byte>)
      modifies this`output
      ensures output == old(output) + p
    {
      output := output + p;
    }

    /** Swallows escape sequences until a byte outside them, or the end of the stream. */
    method NextByte() returns (b: Option<byte>)
      modifies this`input
      ensures (b, input) == Pull(old(input))
    {
      while true
        invariant Pull(input) == Pull(old(input))
        decreases |input|
      {
        b := ReadByte();
        if b == None {
          return;
        }
        if b.value != ESC {
          return;
        }
        var nb := ReadByte();
        if nb == None {
          return None;
        }
        if nb.value == BRACKET {
          ghost var rest := SkipCsi(input);
          while true
            invariant SkipCsi(input) == rest
            decreases |input|
          {
            var fb := ReadByte();
            if fb == None {
              return None;
            }
            if fb.value >= 0x40 && fb.value <= 0x7E {
              break;
            }
          }
        }
      }
    }

    /** Reads one key, skipping control bytes other than CR and LF. */
    method ReadKey() returns (b: Option<byte>)
      modifies this`input
      ensures (b, input) == PullKey(old(input))
    {
      while true
        invariant PullKey(input) == PullKey(old(input))
        decreases |input|
      {
        b := NextByte();
        if b == None {
          return;
        }
        if b.value < 0x20 || b.value == DEL {
          if b.value == CR || b.value == LF {
            return;
          }
        } else {
          return;
        }
      }
    }

    /** Reads a line, echoing it as it is edited. */
    method ReadLine() returns (line: Option<seq<byte>>)
      modifies this
      ensures var o := LineOutcome(old(input));
              line == o.line && input == o.unread && output == old(output) + o.written
    {
      hide Pull, Last;
      var buf: seq<byte> := [];
      ghost var l := Line(input, [], []);
      while true
        invariant input == l.input && buf == l.buf && output == old(output) + l.echo
        invariant Last(l) == Last(Line(old(input), [], []))
        decreases |input|
      {
        LastUnfolds(l);
        var b := NextByte();
        if b == None {
          PullNoneLeaves(l.input);
          return None;
        }
        if b.value == CR || b.value == LF {
          Write(CRLF);
          return Some(buf);
        }
        l := l.Step();
        if b.value == BACKSPACE || b.value == DEL {
          if |buf| > 0 {
            buf := buf[..|buf| - 1];
            Write(RUBOUT);
          }
        } else if b.value < 0x20 {
        } else {
          if |buf| < MAX_LINE_LEN {
            buf := buf + [b.value];
            Write([b.value]);
          }
        }
      }
    }

    /** The same line, the same input left unread, and nothing shown but the final CRLF. */
    method ReadPassword() returns (line: Option<seq<byte>>)
      modifies this
      ensures var o := LineOutcome(old(input));
              && line == o.line && input == o.unread
              && output == old(output) + if line == None then [] else CRLF
    {
      hide Pull, Last;
      var buf: seq<byte> := [];
      ghost var l := Line(input, [], []);
      while true
        invariant input == l.input && buf == l.buf && output == old(output)
        invariant Last(l) == Last(Line(old(input), [], []))
        decreases |input|
      {
        LastUnfolds(l);
        var b := NextByte();
        if b == None {
          PullNoneLeaves(l.input);
          return None;
        }
        if b.value == CR || b.value == LF {
          Write(CRLF);
          return Some(buf);
        }
        l := l.Step();
        if b.value == BACKSPACE || b.value == DEL {
          if |buf| > 0 {
            buf := buf[..|buf| - 1];
          }
        } else if b.value < 0x20 {
        } else {
          if |buf| < MAX_LINE_LEN {
            buf := buf + [b.value];
          }
        }
      }
    }
  }

  lemma {:induction false} PullNoneLeaves(s: seq<byte>)
    ensures Pull(s).0 == None ==> Pull(s).1 == []
    decreases |s|
  {
    if s != [] && s[0] == ESC {
      PullNoneLeaves(AfterEscape(s));
    }
  }

  // ---------------------------------------------------------------------------
  // Keys
  // ---------------------------------------------------------------------------

  predicate IsKey(b: byte) {
    !Control(b) || EndsLine(b)
  }

  function PullKey(s: seq<byte>): (r: (Option<byte>, seq<byte>))
    ensures r.0.Some? ==> |r.1| < |s|
    decreases |s|
  {
    var (b, rest) := Pull(s);
    if b == None || IsKey(b.value) then (b, rest) else PullKey(rest)
  }

  function KeysOf(s: seq<byte>): seq<byte> {
    if s == [] then [] else (if IsKey(s[0]) then [s[0]] else []) + KeysOf(s[1..])
  }

  function DrainKeys(s: seq<byte>): seq<byte>
    decreases |s|
  {
    var (b, rest) := PullKey(s);
    if b == None then [] else [b.value] + DrainKeys(rest)
  }

  lemma {:induction false} PullKeyScans(s: seq<byte>)
    ensures var (b, rest) := PullKey(s);
            KeysOf(Strip(s)) == if b == None then [] else [b.value] + KeysOf(Strip(rest))
    decreases |s|
  {
    hide IsKey, Strip;
    PullScans(s);
    var (b, rest) := Pull(s);
    if b != None {
      assert ([b.value] + Strip(rest))[1..] == Strip(rest);
      if !IsKey(b.value) {
        PullKeyScans(rest);
      }
    }
  }

  /** Reading keys until the caller goes yields exactly the key bytes of the stripped input. */
  lemma {:induction false} KeysRead(s: seq<byte>)
    ensures DrainKeys(s) == KeysOf(Strip(s))
    decreases |s|
  {
    hide Strip;
    PullKeyScans(s);
    var (b, rest) := PullKey(s);
    if b != None {
      KeysRead(rest);
    }
  }

  // ---------------------------------------------------------------------------
  // What the caller sees
  // ---------------------------------------------------------------------------

  /** One terminal line, blank to the right without end, and the cursor's column. */
  datatype Terminal = Terminal(cells: seq<byte>, cursor: nat) {
    function Cell(k: nat): byte {
      if k < |cells| then cells[k] else SPACE
    }

    /** A backspace moves left, anything else overwrites and moves right. */
    function Put(b: byte): Terminal {
      if b == BACKSPACE then Terminal(cells, if cursor > 0 then cursor - 1 else 0)
      else if cursor < |cells| then Terminal(cells[cursor := b], cursor + 1)
      else Terminal(cells + Repeat(SPACE, cursor - |cells|) + [b], cursor + 1)
    }
  }

  const BLANK := Terminal([], 0)

  function Play(t: Terminal, echo: seq<byte>): Terminal {
    if echo == [] then t else Play(t, echo[..|echo| - 1]).Put(echo[|echo| - 1])
  }

  /** The terminal shows `buf` and nothing else, and the cursor stands at its end. */
  ghost predicate Shows(t: Terminal, buf: seq<byte>) {
    && t.cursor == |buf|
    && forall k: nat :: t.Cell(k) == if k < |buf| then buf[k] else SPACE
  }

  predicate CleanBuffer(buf: seq<byte>) {
    |buf| <= MAX_LINE_LEN && forall b :: b in buf ==> !Control(b)
  }

  lemma PlayOne(t: Terminal, echo: seq<byte>, b: byte)
    ensures Play(t, echo + [b]) == Play(t, echo).Put(b)
  {
    assert (echo + [b])[..|echo|] == echo;
  }

  lemma PlayRubout(t: Terminal, echo: seq<byte>)
    ensures Play(t, echo + RUBOUT) == Play(t, echo).Put(BACKSPACE).Put(SPACE).Put(BACKSPACE)
  {
    PlayOne(t, echo, BACKSPACE);
    PlayOne(t, echo + [BACKSPACE], SPACE);
    PlayOne(t, echo + [BACKSPACE] + [SPACE], BACKSPACE);
    assert echo + [BACKSPACE] + [SPACE] + [BACKSPACE] == echo + RUBOUT;
  }

  lemma TypingShows(t: Terminal, buf: seq<byte>, b: byte)
    requires Shows(t, buf) && b != BACKSPACE
    ensures Shows(t.Put(b), buf + [b])
  {
    var t' := t.Put(b);
    forall k: nat ensures t'.Cell(k) == if k < |buf + [b]| then (buf + [b])[k] else SPACE {
      assert t.Cell(k) == if k < |buf| then buf[k] else SPACE;
    }
  }

  lemma ErasingShows(t: Terminal, buf: seq<byte>)
    requires Shows(t, buf) && buf != []
    ensures Shows(t.Put(BACKSPACE).Put(SPACE).Put(BACKSPACE), buf[..|buf| - 1])
  {
    var t' := t.Put(BACKSPACE).Put(SPACE).Put(BACKSPACE);
    forall k: nat ensures t'.Cell(k) == if k < |buf| - 1 then buf[k] else SPACE {
      assert t.Cell(k) == if k < |buf| then buf[k] else SPACE;
    }
  }

  ghost predicate Faithful(l: Line) {
    Shows(Play(BLANK, l.echo), l.buf) && CleanBuffer(l.buf)
  }

  lemma StepFaithful(l: Line)
    requires Faithful(l) && !l.Over()
    ensures Faithful(l.Step())
  {
    hide Shows, Play, Pull;
    var b := l.Key().value;
    var t := Play(BLANK, l.echo);
    if Erases(b) {
      if l.buf != [] {
        PlayRubout(BLANK, l.echo);
        ErasingShows(t, l.buf);
      }
    } else if b >= 0x20 && |l.buf| < MAX_LINE_LEN {
      PlayOne(BLANK, l.echo, b);
      TypingShows(t, l.buf, b);
    }
  }

  lemma {:induction false} AfterFaithful(l: Line, n: nat)
    requires Faithful(l)
    ensures Faithful(After(l, n))
    decreases n
  {
    hide Faithful;
    if n > 0 && !l.Over() {
      StepFaithful(l);
      AfterFaithful(l.Step(), n - 1);
    }
  }

  lemma {:induction false} LastIsAfter(l: Line) returns (n: nat)
    ensures After(l, n) == Last(l)
    decreases |l.input|
  {
    if l.Over() {
      n := 0;
    } else {
      n := LastIsAfter(l.Step());
      n := n + 1;
    }
  }

  /** At every point of reading a line, after any number of keys: the caller's line shows exactly the
      buffer with the cursor at its end, and the buffer is within bounds and free of control bytes. */
  lemma EchoShowsBuffer(input: seq<byte>, n: nat)
    ensures var l := After(Line(input, [], []), n);
            && Shows(Play(BLANK, l.echo), l.buf)
            && |l.buf| <= 4096 && forall b :: b in l.buf ==> b >= 0x20 && b != 0x7F
    ensures var o := LineOutcome(input);
            o.line != None ==> CleanBuffer(o.line.value)
  {
    var start := Line(input, [], []);
    assert Faithful(start);
    AfterFaithful(start, n);
    var m := LastIsAfter(start);
    AfterFaithful(start, m);
  }
}
