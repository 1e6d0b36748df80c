/** The four places that take terminal escape sequences out of a byte stream, and their agreement. */
module Escapes {
  import opened Bytes

  const ESC: byte := 0x1B
  const BRACKET: byte := 0x5B  // '[' after ESC opens a control sequence (CSI)
  const TAB: byte := 0x09
  const LF: byte := 0x0A
  const CR: byte := 0x0D
  const DEL: byte := 0x7F
  const EOF_MARK: byte := 0x1A

  /** The final byte of a control sequence (section 5.4 of ECMA-48). */
  predicate CsiFinal(b: byte) {
    0x40 <= b <= 0x7E
  }

  predicate Control(b: byte) {
    b < 0x20 || b == DEL
  }

  // ---------------------------------------------------------------------------
  // The reference: a three-mode scanner, one byte at a time
  // ---------------------------------------------------------------------------

  datatype Mode = Ground | Escape | Csi

  function NextMode(m: Mode, b: byte): Mode {
    match m
    case Ground => if b == ESC then Escape else Ground
    case Escape => if b == BRACKET then Csi else Ground
    case Csi => if CsiFinal(b) then Ground else Csi
  }

  function Emitted(m: Mode, b: byte): seq<byte> {
    if m == Ground && b != ESC then [b] else []
  }

  function ModeAfter(m: Mode, s: seq<byte>): Mode
    decreases |s|
  {
    if s == [] then m else ModeAfter(NextMode(m, s[0]), s[1..])
  }

  function Scan(m: Mode, s: seq<byte>): seq<byte>
    decreases |s|
  {
    if s == [] then [] else Emitted(m, s[0]) + Scan(NextMode(m, s[0]), s[1..])
  }

  lemma {:induction false} ScanConcat(m: Mode, x: seq<byte>, y: seq<byte>)
    ensures Scan(m, x + y) == Scan(m, x) + Scan(ModeAfter(m, x), y)
    decreases |x|
  {
    if x == [] {
      assert x + y == y;
    } else {
      assert (x + y)[1..] == x[1..] + y;
      ScanConcat(NextMode(m, x[0]), x[1..], y);
    }
  }

  // ---------------------------------------------------------------------------
  // The whole-buffer strippers
  // ---------------------------------------------------------------------------

  /** `s` without its escape sequences. */
  function Strip(s: seq<byte>): seq<byte> {
    Scan(Ground, s)
  }

  /** What is still to come at index `i`, which the loops may leave one past the end. */
  function Rest(m: Mode, s: seq<byte>, i: nat): seq<byte> {
    if i <= |s| then Scan(m, s[i..]) else []
  }

  lemma RestStep(m: Mode, s: seq<byte>, i: nat)
    requires i < |s|
    ensures Rest(m, s, i) == Emitted(m, s[i]) + Rest(NextMode(m, s[i]), s, i + 1)
  {
    hide Emitted, NextMode;
    assert s[i..][1..] == s[i + 1..];
  }

  lemma RestEnd(m: Mode, s: seq<byte>, i: nat)
    requires i >= |s|
    ensures Rest(m, s, i) == []
  {
  }

  lemma RestStart(s: seq<byte>)
    ensures Rest(Ground, s, 0) == Strip(s)
  {
    assert s[0..] == s;
  }

  lemma SilentStep(m: Mode, s: seq<byte>, i: nat)
    requires i < |s| && (m != Ground || s[i] == ESC)
    ensures Rest(m, s, i) == Rest(NextMode(m, s[i]), s, i + 1)
  {
    hide Rest, NextMode;
    RestStep(m, s, i);
  }

  lemma PlainStep(s: seq<byte>, i: nat)
    requires i < |s| && s[i] != ESC
    ensures Rest(Ground, s, i) == [s[i]] + Rest(Ground, s, i + 1)
  {
    hide Rest;
    RestStep(Ground, s, i);
  }

  /** One pass of the index loops over an escape sequence that starts at `start`: where it leaves `i`. */
  method SkipEscape(s: seq<byte>, start: nat) returns (i: nat)
    requires start < |s| && s[start] == ESC
    ensures start < i
    ensures Rest(Ground, s, start) == Rest(Ground, s, i + 1)
  {
    hide Rest;
    i := start;
    SilentStep(Ground, s, i);
    if i + 1 < |s| && s[i + 1] == BRACKET {
      SilentStep(Escape, s, i + 1);
      i := i + 2;
      while i < |s| && (s[i] < 0x40 || s[i] > 0x7E)
        invariant start + 2 <= i <= |s|
        invariant Rest(Ground, s, start) == Rest(Csi, s, i)
      {
        SilentStep(Csi, s, i);
        i := i + 1;
      }
      if i < |s| {
        SilentStep(Csi, s, i);
      } else {
        RestEnd(Csi, s, i);
        RestEnd(Ground, s, i + 1);
      }
    } else {
      i := i + 1;
      if i < |s| {
        SilentStep(Escape, s, i);
      } else {
        RestEnd(Escape, s, i);
        RestEnd(Ground, s, i + 1);
      }
    }
  }

  method StripANSI(s: seq<byte>) returns (out: seq<byte>)
    ensures out == Strip(s)
  {
    hide Rest, Strip;
    out := [];
    var i := 0;
    RestStart(s);
    while i < |s|
      invariant Strip(s) == out + Rest(Ground, s, i)
      decreases |s| - i
    {
      if s[i] == ESC {
        i := SkipEscape(s, i);
      } else {
        PlainStep(s, i);
        out := out + [s[i]];
      }
      i := i + 1;
    }
    RestEnd(Ground, s, i);
  }

  /** What both sanitisers let through: printable bytes, high CP437 bytes, TAB, CR and LF. */
  predicate Allowed(b: byte) {
    !Control(b) || b == TAB || b == CR || b == LF
  }

  function Keep(s: seq<byte>): seq<byte> {
    if s == [] then [] else (if Allowed(s[0]) then [s[0]] else []) + Keep(s[1..])
  }

  method SanitizeInput(s: seq<byte>) returns (out: seq<byte>)
    ensures out == Keep(Strip(s))
  {
    hide Rest, Strip, Keep;
    out := [];
    var i := 0;
    RestStart(s);
    while i < |s|
      invariant Keep(Strip(s)) == out + Keep(Rest(Ground, s, i))
      decreases |s| - i
    {
      var b := s[i];
      if b == ESC {
        i := SkipEscape(s, i);
      } else {
        PlainStep(s, i);
        KeepFirst(b, Rest(Ground, s, i + 1));
        if b < 0x20 || b == DEL {
          if b == TAB || b == LF || b == CR {
            out := out + [b];
          }
        } else {
          out := out + [b];
        }
      }
      i := i + 1;
    }
    RestEnd(Ground, s, i);
    KeepNone();
  }

  method SanitizeForDisplay(s: seq<byte>) returns (out: seq<byte>)
    ensures out == Keep(Strip(s))
  {
    hide Rest, Strip, Keep;
    out := [];
    var i := 0;
    RestStart(s);
    while i < |s|
      invariant Keep(Strip(s)) == out + Keep(Rest(Ground, s, i))
      decreases |s| - i
    {
      var b := s[i];
      if b == ESC {
        i := SkipEscape(s, i);
      } else {
        PlainStep(s, i);
        KeepFirst(b, Rest(Ground, s, i + 1));
        if b == TAB || b == CR || b == LF || b == 0x20 {
          out := out + [b];
        } else if b < 0x20 || b == DEL {
        } else {
          out := out + [b];
        }
      }
      i := i + 1;
    }
    RestEnd(Ground, s, i);
    KeepNone();
  }

  lemma KeepNone()
    ensures Keep([]) == []
  {
  }

  lemma KeepFirst(b: byte, rest: seq<byte>)
    ensures Allowed(b) ==> Keep([b] + rest) == [b] + Keep(rest)
    ensures !Allowed(b) ==> Keep([b] + rest) == Keep(rest)
  {
    hide Allowed;
    assert ([b] + rest)[1..] == rest;
  }

  // ---------------------------------------------------------------------------
  // Pull-style reading agrees
  // ---------------------------------------------------------------------------

  /** What is left of `s`, which starts inside a control sequence, after its final byte. */
  function SkipCsi(s: seq<byte>): (rest: seq<byte>)
    ensures |rest| <= |s|
  {
    if s == [] then [] else if CsiFinal(s[0]) then s[1..] else SkipCsi(s[1..])
  }

  function AfterEscape(s: seq<byte>): (rest: seq<byte>)
    requires s != []
    ensures |rest| < |s|
  {
    if |s| == 1 then [] else if s[1] == BRACKET then SkipCsi(s[2..]) else s[2..]
  }

  /** The next real byte, and the input after it. A stream that ends inside a sequence has none. */
  function Pull(s: seq<byte>): (r: (Option<byte>, seq<byte>))
    ensures r.0.Some? ==> |r.1| < |s|
    decreases |s|
  {
    if s == [] then (None, [])
    else if s[0] != ESC then (Some(s[0]), s[1..])
    else Pull(AfterEscape(s))
  }

  /** All the bytes that repeated pulls deliver. */
  function Drain(s: seq<byte>): seq<byte>
    decreases |s|
  {
    var (b, rest) := Pull(s);
    if b == None then [] else [b.value] + Drain(rest)
  }

  lemma {:induction false} SkipCsiScans(s: seq<byte>)
    ensures Scan(Csi, s) == Scan(Ground, SkipCsi(s))
  {
    if s != [] && !CsiFinal(s[0]) {
      SkipCsiScans(s[1..]);
    }
  }

  lemma {:induction false} PullScans(s: seq<byte>)
    ensures var (b, rest) := Pull(s);
            Strip(s) == if b == None then [] else [b.value] + Strip(rest)
    decreases |s|
  {
    if s != [] && s[0] == ESC {
      if |s| > 1 {
        assert s[1..][1..] == s[2..];
        SkipCsiScans(s[2..]);
      } else {
        assert s[1..] == [];
      }
      assert Strip(s) == Scan(Escape, s[1..]);
      assert Strip(s) == Strip(AfterEscape(s));
      PullScans(AfterEscape(s));
    }
  }

  /** Reading byte by byte until the stream ends delivers exactly the stripped stream. */
  lemma {:induction false} DrainIsStrip(s: seq<byte>)
    ensures Drain(s) == Strip(s)
    decreases |s|
  {
    PullScans(s);
    var (b, rest) := Pull(s);
    if b != None {
      DrainIsStrip(rest);
    }
  }

  // ---------------------------------------------------------------------------
  // What the results promise
  // ---------------------------------------------------------------------------

  lemma {:induction false} StripHasNoEscape(m: Mode, s: seq<byte>)
    ensures ESC !in Scan(m, s)
    decreases |s|
  {
    if s != [] {
      StripHasNoEscape(NextMode(m, s[0]), s[1..]);
    }
  }

  lemma {:induction false} StripOfClean(s: seq<byte>)
    requires ESC !in s
    ensures Strip(s) == s
    decreases |s|
  {
    if s != [] {
      StripOfClean(s[1..]);
    }
  }

  lemma {:induction false} KeepAllowed(s: seq<byte>)
    ensures forall b :: b in Keep(s) ==> b in s && Allowed(b)
    ensures |Keep(s)| <= |s|
  {
    if s != [] {
      KeepAllowed(s[1..]);
    }
  }

  lemma {:induction false} KeepOfAllowed(s: seq<byte>)
    requires forall b :: b in s ==> Allowed(b)
    ensures Keep(s) == s
  {
    if s != [] {
      assert s[0] in s;
      assert forall b :: b in s[1..] ==> b in s;
      KeepOfAllowed(s[1..]);
    }
  }

  /** The sanitised text holds only allowed bytes, is no longer than the input, and sanitising it again
      changes nothing. */
  lemma SanitizedIsClean(s: seq<byte>)
    ensures var out := Keep(Strip(s));
            && (forall b :: b in out ==> Allowed(b))
            && ESC !in out
            && |out| <= |s|
            && Keep(Strip(out)) == out
  {
    var out := Keep(Strip(s));
    KeepAllowed(Strip(s));
    StripHasNoEscape(Ground, s);
    StripOfClean(out);
    KeepOfAllowed(out);
    ScanShortens(Ground, s);
  }

  lemma {:induction false} ScanShortens(m: Mode, s: seq<byte>)
    ensures |Scan(m, s)| <= |s|
    decreases |s|
  {
    if s != [] {
      ScanShortens(NextMode(m, s[0]), s[1..]);
    }
  }

  /** Stripping a stream in pieces is safe exactly at cuts that do not fall inside a sequence. */
  lemma CutIsSafe(x: seq<byte>)
    ensures (forall y :: Strip(x + y) == Strip(x) + Strip(y)) <==> ModeAfter(Ground, x) == Ground
  {
    if ModeAfter(Ground, x) == Ground {
      forall y ensures Strip(x + y) == Strip(x) + Strip(y) {
        ScanConcat(Ground, x, y);
      }
    } else {
      var y: seq<byte> := [0x30];
      ScanConcat(Ground, x, y);
      assert y[1..] == [];
      assert |Strip(x + y)| == |Strip(x)| && |Strip(y)| == 1;
    }
  }

  // ---------------------------------------------------------------------------
  // Art on a terminal without ANSI
  // ---------------------------------------------------------------------------

  /** ASCII stand-ins for the CP437 line and box-drawing range. */
  function FoldHigh(b: byte): byte {
    if b in [0xB3, 0xBA, 0xB4, 0xB5, 0xB6, 0xB9, 0xC3, 0xC6, 0xC7, 0xCC, 0xD0, 0xD2, 0xD5, 0xD8] then 0x7C
    else if b in [0xC4, 0xCD, 0xC1, 0xC2, 0xCA, 0xCB, 0xD1, 0xCF] then 0x2D
    else if b in [0xDA, 0xBF, 0xC0, 0xD9, 0xC9, 0xBB, 0xC8, 0xBC, 0xC5, 0xCE, 0xD6, 0xB7, 0xD3, 0xBD] then 0x2B
    else if b in [0xB0, 0xB1, 0xB2, 0xDB, 0xDC, 0xDD, 0xDE, 0xDF] then 0x23
    else 0x3F
  }

  function DegradeByte(b: byte): seq<byte> {
    if b == CR || b == LF || b == TAB then [b]
    else if Control(b) then []
    else if b < 0x80 then [b]
    else [FoldHigh(b)]
  }

  /** Everything from the DOS end-of-file marker on is dropped. */
  function Degrade(s: seq<byte>): seq<byte> {
    if s == [] || s[0] == EOF_MARK then [] else DegradeByte(s[0]) + Degrade(s[1..])
  }

  lemma DegradeStep(s: seq<byte>, k: nat)
    requires k < |s|
    ensures Degrade(s[k..]) == if s[k] == EOF_MARK then [] else DegradeByte(s[k]) + Degrade(s[k + 1..])
  {
    hide DegradeByte;
    assert s[k..][1..] == s[k + 1..];
  }

  method DegradeCP437(s: seq<byte>) returns (out: seq<byte>)
    ensures out == Degrade(s)
  {
    hide FoldHigh, Degrade;
    out := [];
    assert s[0..] == s;
    for k := 0 to |s|
      invariant Degrade(s) == out + Degrade(s[k..])
    {
      DegradeStep(s, k);
      var b := s[k];
      if b == CR || b == LF || b == TAB {
        out := out + [b];
      } else if b == EOF_MARK {
        return;
      } else if b < 0x20 || b == DEL {
      } else if b < 0x80 {
        out := out + [b];
      } else {
        out := out + [FoldHigh(b)];
      }
    }
    assert s[|s|..] == [];
    DegradeNone();
  }

  lemma DegradeNone()
    ensures Degrade([]) == []
  {
  }

  lemma DegradedByte(b: byte)
    ensures forall d :: d in DegradeByte(b) ==> d < 0x80 && d != ESC
  {
  }

  /** On a plain terminal, art comes out as seven-bit text without a single escape. */
  lemma {:induction false} DegradedIsPlain(s: seq<byte>)
    ensures forall d :: d in Degrade(s) ==> d < 0x80 && d != ESC
    ensures |Degrade(s)| <= |s|
  {
    if s != [] && s[0] != EOF_MARK {
      DegradedByte(s[0]);
      DegradedIsPlain(s[1..]);
    }
  }
}
