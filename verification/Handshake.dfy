/** The optional greeting of a resident door: a leading sentinel, peeked at and stripped, and the handle
    the host may send back. */
module Handshake {
  import opened Bytes
  import opened Text
  import opened Wires

  const PREFIX: seq<byte> := [0x1B, 0x5D, 0x41, 0x42, 0x42, 0x53, 0x3B]  // ESC ] ABBS;
  const BEL: byte := 0x07
  const SENTINEL_MAX := 256

  const SEMICOLON: byte := 0x3B
  const COMMA: byte := 0x2C
  const EQUALS: byte := 0x3D
  const KEY_VERSION: seq<byte> := [0x76, 0x65, 0x72, 0x73, 0x69, 0x6F, 0x6E]  // version
  const KEY_CAPS: seq<byte> := [0x63, 0x61, 0x70, 0x73]                     // caps
  const HANDLE: seq<byte> := [0x68, 0x61, 0x6E, 0x64, 0x6C, 0x65]             // handle

  // ---------------------------------------------------------------------------
  // The payload
  // ---------------------------------------------------------------------------

  datatype Advert = Advert(version: seq<byte>, caps: set<seq<byte>>)

  predicate Alnum(c: byte) {
    (0x30 <= c <= 0x39) || (0x61 <= c <= 0x7A) || (0x41 <= c <= 0x5A)
  }

  predicate VersionChar(c: byte) {
    c == 0x2E || c == 0x2D || c == 0x2B || Alnum(c)
  }

  predicate HandleChar(c: byte) {
    c == 0x5F || c == 0x2D || c == 0x2E || Alnum(c)
  }

  function Filter(s: seq<byte>, keep: byte -> bool): (r: seq<byte>)
    ensures |r| <= |s| && forall c :: c in r ==> keep(c)
  {
    if s == [] then [] else (if keep(s[0]) then [s[0]] else []) + Filter(s[1..], keep)
  }

  function Cap(s: seq<byte>, n: nat): seq<byte> {
    if |s| > n then s[..n] else s
  }

  function CleanVersion(v: seq<byte>): (r: seq<byte>)
    ensures |r| <= 32 && forall c :: c in r ==> VersionChar(c)
  {
    Filter(Cap(v, 32), c => VersionChar(c))
  }

  function CleanHandle(h: seq<byte>): (r: seq<byte>)
    ensures |r| <= 24 && forall c :: c in r ==> HandleChar(c)
  {
    Filter(Cap(h, 24), c => HandleChar(c))
  }

  function CapsIn(pieces: seq<seq<byte>>): set<seq<byte>> {
    set k | 0 <= k < |pieces| && TrimSpace(pieces[k]) != [] :: TrimSpace(pieces[k])
  }

  /** One `key=value` field; other keys, and fields without '=', are ignored. */
  function ReadField(a: Advert, field: seq<byte>): Advert {
    var i := IndexOf(field, EQUALS);
    if i == |field| then a
    else
      var key, value := TrimSpace(field[..i]), field[i + 1..];
      if key == KEY_VERSION then a.(version := CleanVersion(value))
      else if key == KEY_CAPS then a.(caps := a.caps + CapsIn(Split(value, COMMA)))
      else a
  }

  function ReadFields(a: Advert, fields: seq<seq<byte>>): Advert
    decreases |fields|
  {
    if fields == [] then a else ReadFields(ReadField(a, fields[0]), fields[1..])
  }

  /** The payload of a sentinel. */
  function ParsePayload(payload: seq<byte>): Advert {
    ReadFields(Advert([], {}), Split(payload, SEMICOLON))
  }

  const SILENT := Advert([], {})

  // ---------------------------------------------------------------------------
  // The peek
  // ---------------------------------------------------------------------------

  /** `stripped` says that a complete sentinel was taken out; `pre` is what the caller sees first and
      `rest` what the relay will still read. */
  datatype Outcome = Outcome(stripped: bool, advert: Advert, pre: seq<byte>, rest: seq<RawRead>)

  datatype Finding = Complete(bel: nat) | Partial | Diverged

  /** What the bytes read so far amount to. */
  function Look(buf: seq<byte>): Finding {
    if PREFIX <= buf then
      var i := IndexOf(buf, BEL);
      if i < |buf| then Complete(i) else Partial
    else if buf <= PREFIX then Partial
    else Diverged
  }

  function Peek(buf: seq<byte>, raw: seq<RawRead>): Outcome
    decreases |raw|
  {
    if |buf| >= SENTINEL_MAX || raw == [] then Outcome(false, SILENT, buf, raw)
    else
      var buf' := buf + raw[0].bytes;
      var rest := raw[1..];
      var view := if raw[0].bytes == [] then Partial else Look(buf');
      if view.Complete? then
        PrefixHasNoBel(buf', view.bel);
        Outcome(true, ParsePayload(buf'[|PREFIX|..view.bel]), buf'[view.bel + 1..], rest)
      else if view.Diverged? || raw[0].err then Outcome(false, SILENT, buf', rest)
      else Peek(buf', rest)
  }

  lemma PrefixHasNoBel(buf: seq<byte>, i: nat)
    requires Look(buf) == Complete(i)
    ensures |PREFIX| <= i < |buf|
  {
    assert forall k :: 0 <= k < |PREFIX| ==> buf[k] == PREFIX[k];
  }

  /** What reaches the caller. */
  function Delivered(o: Outcome): seq<byte> {
    o.pre + Flatten(o.rest)
  }

  class ResidentConn {
    var raw: seq<RawRead>     // what the door connection will bring
    var toDoor: seq<byte>       // what the host has written to it
    var toCaller: seq<byte>     // what the replay has written to the caller
    var version: seq<byte>
    var caps: set<seq<byte>>
    var pre: seq<byte>

    constructor (raw: seq<RawRead>)
      ensures this.raw == raw && toDoor == [] && toCaller == [] && version == [] && caps == {} && pre == []
    {
      this.raw, toDoor, toCaller, version, caps, pre := raw, [], [], [], {}, [];
    }

    /** Past the last read the connection times out. */
    method Read() returns (bytes: seq<byte>, err: bool)
      modifies this`raw
      ensures old(raw) == [] ==> bytes == [] && err && raw == []
      ensures old(raw) != [] ==> RawRead(bytes, err) == old(raw)[0] && raw == old(raw)[1..]
    {
      if raw == [] {
        return [], true;
      }
      bytes, err := raw[0].bytes, raw[0].err;
      raw := raw[1..];
    }

    /** Peeks at the door's first bytes for the sentinel. */
    method ReadHandshake()
      requires version == [] && caps == {}
      modifies this
      ensures var o := Peek([], old(raw));
              && pre == o.pre && raw == o.rest && Advert(version, caps) == o.advert
              && toDoor == old(toDoor) && toCaller == old(toCaller)
    {
      var buf: seq<byte> := [];
      while |buf| < SENTINEL_MAX
        invariant Peek(buf, raw) == Peek([], old(raw))
        invariant version == [] && caps == {} && toDoor == old(toDoor) && toCaller == old(toCaller)
        decreases |raw|, SENTINEL_MAX - |buf|
      {
        var bytes, err := Read();
        if |bytes| > 0 {
          buf := buf + bytes;
          if PREFIX <= buf {
            var i := IndexOf(buf, BEL);
            if i < |buf| {
              PrefixHasNoBel(buf, i);
              Parse(buf[|PREFIX|..i]);
              pre := buf[i + 1..];
              return;
            }
          } else if buf <= PREFIX {
          } else {
            pre := buf;
            return;
          }
        } else {
          assert buf + bytes == buf;
        }
        if err {
          pre := buf;
          return;
        }
      }
      pre := buf;
    }

    method Parse(payload: seq<byte>)
      modifies this`version, this`caps
      ensures Advert(version, caps) == ReadFields(Advert(old(version), {}), Split(payload, SEMICOLON))
    {
      hide ReadField;
      caps := {};
      var fields := Split(payload, SEMICOLON);
      ghost var whole := ReadFields(Advert(version, caps), fields);
      assert fields[0..] == fields;
      for k := 0 to |fields|
        invariant ReadFields(Advert(version, caps), fields[k..]) == whole
      {
        assert fields[k..][1..] == fields[k + 1..];
        ParseField(fields[k]);
      }
      assert fields[|fields|..] == [];
    }

    method ParseField(field: seq<byte>)
      modifies this`version, this`caps
      ensures Advert(version, caps) == ReadField(old(Advert(version, caps)), field)
    {
      hide TrimSpace, CleanVersion, CapsIn;
      var i := IndexOf(field, EQUALS);
      if i < |field| {
        var key, value := TrimSpace(field[..i]), field[i + 1..];
        if key == KEY_VERSION {
          version := CleanVersion(value);
        } else if key == KEY_CAPS {
          ParseCaps(value);
        }
      }
    }

    method ParseCaps(value: seq<byte>)
      modifies this`caps
      ensures caps == old(caps) + CapsIn(Split(value, COMMA))
    {
      hide TrimSpace, CapsIn;
      var pieces := Split(value, COMMA);
      CapsNone(pieces[..0]);
      for k := 0 to |pieces|
        invariant caps == old(caps) + CapsIn(pieces[..k])
      {
        CapsGrow(pieces, k);
        var c := TrimSpace(pieces[k]);
        if c != [] {
          caps := caps + {c};
        }
      }
      assert pieces[..|pieces|] == pieces;
    }

    /** Tells the door the caller's handle, if it asked and there is one. */
    method SendHandle(handle: seq<byte>)
      modifies this`toDoor
      ensures toDoor == old(toDoor) + if HANDLE in caps then Greeting(handle) else []
    {
      if HANDLE !in caps {
        return;
      }
      var h := CleanHandle(handle);
      if h == [] {
        return;
      }
      toDoor := toDoor + (PREFIX + (HANDLE + [EQUALS] + h) + [BEL]);
    }

    /** Replays the bytes held back by the peek, or keeps them and ends the relay if the caller's connection
        does not take them. The copying that follows is not part of this model. */
    method Replay(writeOk: bool) returns (ok: bool)
      modifies this`toCaller, this`pre
      ensures ok == (old(pre) == [] || writeOk)
      ensures ok ==> toCaller == old(toCaller) + old(pre) && pre == []
      ensures !ok ==> toCaller == old(toCaller) && pre == old(pre)
    {
      if |pre| > 0 {
        if !writeOk {
          return false;
        }
        toCaller := toCaller + pre;
        pre := [];
      }
      ok := true;
    }
  }

  lemma CapsNone(pieces: seq<seq<byte>>)
    requires pieces == []
    ensures CapsIn(pieces) == {}
  {
  }

  lemma CapsGrow(pieces: seq<seq<byte>>, j: nat)
    requires j < |pieces|
    ensures CapsIn(pieces[..j + 1]) ==
            CapsIn(pieces[..j]) + if TrimSpace(pieces[j]) != [] then {TrimSpace(pieces[j])} else {}
  {
    hide TrimSpace;
    var a, b := pieces[..j], pieces[..j + 1];
    assert forall k :: 0 <= k < j ==> a[k] == b[k];
    assert b[j] == pieces[j];
    assert CapsIn(a) <= CapsIn(b);
  }

  // ---------------------------------------------------------------------------
  // The reply
  // ---------------------------------------------------------------------------

  /** The reciprocal sentinel; nothing if no legal character is left of the handle. */
  function Greeting(handle: seq<byte>): seq<byte> {
    var h := CleanHandle(handle);
    if h == [] then [] else PREFIX + (HANDLE + [EQUALS] + h) + [BEL]
  }

  /** A door that reads the reply the way the host reads a door's sentinel finds one complete sentinel,
      nothing after it, and in it exactly the field handle=<sanitised handle>. */
  lemma GreetingParses(handle: seq<byte>)
    requires CleanHandle(handle) != []
    ensures var g := Greeting(handle);
            var payload := g[|PREFIX|..|g| - 1];
            && Look(g) == Complete(|g| - 1)
            && Split(payload, SEMICOLON) == [payload]
            && IndexOf(payload, EQUALS) == |HANDLE| && payload[..|HANDLE|] == HANDLE
            && payload[|HANDLE| + 1..] == CleanHandle(handle)
  {
    hide CleanHandle, Split, Look, IndexOf;
    var h := CleanHandle(handle);
    var payload := HANDLE + [EQUALS] + h;
    PayloadIsPlain(handle);
    SentinelFound(payload);
    FieldFound(HANDLE, h);
    SplitWhole(payload, SEMICOLON);
  }

  /** What is said of a handle that the board can have issued: the handle itself, in ESC ]ABBS;handle= BEL. */
  lemma GreetingOfLegal(handle: seq<byte>)
    requires 0 < |handle| <= 24
    requires forall k :: 0 <= k < |handle| ==> var c := handle[k];
               (0x30 <= c <= 0x39) || (0x41 <= c <= 0x5A) || (0x61 <= c <= 0x7A) || c == 0x5F || c == 0x2D || c == 0x2E
    ensures Greeting(handle) == [0x1B, 0x5D, 0x41, 0x42, 0x42, 0x53, 0x3B, 0x68, 0x61, 0x6E, 0x64, 0x6C, 0x65, 0x3D]
                                + handle + [0x07]
  {
    LegalHandleStays(handle);
    hide CleanHandle;
    assert PREFIX + (HANDLE + [EQUALS] + handle) + [BEL] == PREFIX + HANDLE + [EQUALS] + handle + [BEL];
  }

  // ---------------------------------------------------------------------------
  // What is kept of a handle and of a version
  // ---------------------------------------------------------------------------

  /** `r` is the bytes of `s` at these indices, in order. */
  ghost predicate Picked(r: seq<byte>, s: seq<byte>, at: seq<nat>) {
    && |r| == |at|
    && (forall k :: 0 <= k < |at| ==> at[k] < |s| && r[k] == s[at[k]])
    && (forall j, k :: 0 <= j < k < |at| ==> at[j] < at[k])
  }

  lemma {:induction false} FilterSnoc(s: seq<byte>, c: byte, keep: byte -> bool)
    ensures Filter(s + [c], keep) == Filter(s, keep) + if keep(c) then [c] else []
  {
    if s == [] {
      assert s + [c] == [c];
    } else {
      assert (s + [c])[1..] == s[1..] + [c];
      FilterSnoc(s[1..], c, keep);
    }
  }

  lemma PickedMore(r: seq<byte>, s: seq<byte>, at: seq<nat>, c: byte)
    requires Picked(r, s, at)
    ensures Picked(r, s + [c], at) && Picked(r + [c], s + [c], at + [|s|])
  {
  }

  /** The indices in `at` are those of the bytes to keep. */
  ghost predicate Exactly(at: seq<nat>, s: seq<byte>, keep: byte -> bool) {
    forall i :: 0 <= i < |s| ==> (i in at <==> keep(s[i]))
  }

  lemma ExactlyMore(at: seq<nat>, s: seq<byte>, c: byte, keep: byte -> bool)
    requires Exactly(at, s, keep) && forall k :: 0 <= k < |at| ==> at[k] < |s|
    ensures Exactly(if keep(c) then at + [|s|] else at, s + [c], keep)
  {
  }

  lemma {:induction false} FilterPicks(s: seq<byte>, keep: byte -> bool) returns (at: seq<nat>)
    ensures Picked(Filter(s, keep), s, at) && Exactly(at, s, keep)
    decreases |s|
  {
    at := [];
    if s != [] {
      hide Filter, Exactly;
      var n := |s| - 1;
      var most := FilterPicks(s[..n], keep);
      FilterSnoc(s[..n], s[n], keep);
      PickedMore(Filter(s[..n], keep), s[..n], most, s[n]);
      ExactlyMore(most, s[..n], s[n], keep);
      assert s == s[..n] + [s[n]];
      at := if keep(s[n]) then most + [n] else most;
    }
  }

  lemma {:induction false} FilterAll(s: seq<byte>, keep: byte -> bool)
    requires forall k :: 0 <= k < |s| ==> keep(s[k])
    ensures Filter(s, keep) == s
  {
    if s != [] {
      FilterAll(s[1..], keep);
      assert Filter(s, keep) == [s[0]] + Filter(s[1..], keep);
      assert [s[0]] + s[1..] == s;
    }
  }

  /** Of a handle exactly the letters, digits, '_', '-' and '.' among the first 24 bytes are kept, in order. */
  lemma HandleKept(h: seq<byte>) returns (at: seq<nat>)
    ensures Picked(CleanHandle(h), h, at)
    ensures forall i :: 0 <= i < |h| ==> var c := h[i];
              (i in at <==> i < 24 && ((0x30 <= c <= 0x39) || (0x41 <= c <= 0x5A) || (0x61 <= c <= 0x7A)
                                       || c == 0x5F || c == 0x2D || c == 0x2E))
  {
    at := FilterPicks(Cap(h, 24), c => HandleChar(c));
  }

  /** Of a version exactly the letters, digits, '.', '-' and '+' among the first 32 bytes are kept, in order. */
  lemma VersionKept(v: seq<byte>) returns (at: seq<nat>)
    ensures Picked(CleanVersion(v), v, at)
    ensures forall i :: 0 <= i < |v| ==> var c := v[i];
              (i in at <==> i < 32 && ((0x30 <= c <= 0x39) || (0x41 <= c <= 0x5A) || (0x61 <= c <= 0x7A)
                                       || c == 0x2E || c == 0x2D || c == 0x2B))
  {
    at := FilterPicks(Cap(v, 32), c => VersionChar(c));
  }

  lemma LegalHandleStays(h: seq<byte>)
    requires |h| <= 24
    requires forall k :: 0 <= k < |h| ==> var c := h[k];
               (0x30 <= c <= 0x39) || (0x41 <= c <= 0x5A) || (0x61 <= c <= 0x7A) || c == 0x5F || c == 0x2D || c == 0x2E
    ensures CleanHandle(h) == h
  {
    FilterAll(h, c => HandleChar(c));
  }

  lemma LegalVersionStays(v: seq<byte>)
    requires |v| <= 32
    requires forall k :: 0 <= k < |v| ==> var c := v[k];
               (0x30 <= c <= 0x39) || (0x41 <= c <= 0x5A) || (0x61 <= c <= 0x7A) || c == 0x2E || c == 0x2D || c == 0x2B
    ensures CleanVersion(v) == v
  {
    FilterAll(v, c => VersionChar(c));
  }

  /** A payload between the prefix and a BEL. */
  lemma SentinelFound(payload: seq<byte>)
    requires BEL !in payload
    ensures var s := PREFIX + payload + [BEL];
            Look(s) == Complete(|s| - 1) && s[|PREFIX|..|s| - 1] == payload
  {
    var x := PREFIX + payload;
    assert BEL !in x by {
      assert BEL !in PREFIX;
    }
    BelEnds(x);
    hide IndexOf;
    assert PREFIX <= x + [BEL];
    assert x[|PREFIX|..] == payload;
  }

  lemma FieldFound(key: seq<byte>, value: seq<byte>)
    requires EQUALS !in key
    ensures var field := key + [EQUALS] + value;
            IndexOf(field, EQUALS) == |key| && field[..|key|] == key && field[|key| + 1..] == value
  {
    IndexOfFirst(key, EQUALS, value);
  }

  lemma PayloadIsPlain(handle: seq<byte>)
    ensures var payload := HANDLE + [EQUALS] + CleanHandle(handle);
            BEL !in payload && SEMICOLON !in payload && EQUALS !in HANDLE
  {
    HandleIsPlain(handle);
    hide CleanHandle;
  }

  lemma BelEnds(x: seq<byte>)
    requires BEL !in x
    ensures IndexOf(x + [BEL], BEL) == |x|
  {
    IndexOfFirst(x, BEL, []);
    assert x + [BEL] + [] == x + [BEL];
  }

  lemma HandleIsPlain(handle: seq<byte>)
    ensures BEL !in CleanHandle(handle) && SEMICOLON !in CleanHandle(handle)
  {
    assert !HandleChar(BEL) && !HandleChar(SEMICOLON);
  }
}
