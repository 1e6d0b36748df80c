/** The encrypted, hash-chained audit trail: a text file of lines ciphertext "." MAC, both in base64. */
module Audit {
  import opened Bytes
  import opened Text
  import opened Vaults

  const LF: byte := 0x0A
  const DOT: byte := 0x2E

  /** The message whose MAC starts every chain. */
  const GENESIS := Ascii("admiralbbs/audit-genesis/v1")

  datatype Event = Event(time: int, kind: string, sessionID: string, remoteIP: string, transport: string,
                         username: string, action: string, detail: string, minutes: real)

  /** The encodings: base64url without padding, and JSON. A marshal that fails is None. */
  datatype Codec = Codec(
    enc: seq<byte> -> seq<byte>,
    dec: seq<byte> -> Option<seq<byte>>,
    marshal: Event -> Option<seq<byte>>,
    unmarshal: seq<byte> -> Option<Event>
  )

  predicate Base64Char(b: byte) {
    (0x30 <= b <= 0x39) || (0x41 <= b <= 0x5A) || (0x61 <= b <= 0x7A) || b == 0x2D || b == 0x5F
  }

  ghost predicate Lawful(c: Codec) {
    && (forall x :: c.dec(c.enc(x)) == Some(x))
    && (forall x :: x != [] ==> c.enc(x) != [])
    && (forall x, b :: b in c.enc(x) ==> Base64Char(b))
    && (forall e :: c.marshal(e) != None ==> c.unmarshal(c.marshal(e).value) != None)
  }

  /** What is read back of an event: text that is not valid UTF-8, for one, does not survive JSON. */
  function Normal(c: Codec, e: Event): Option<Event> {
    match c.marshal(e)
    case None => None
    case Some(plain) => c.unmarshal(plain)
  }

  datatype Entry = Entry(ct: seq<byte>, mac: seq<byte>)

  // ---------------------------------------------------------------------------
  // Lines and files
  // ---------------------------------------------------------------------------

  function LineText(c: Codec, e: Entry): seq<byte> {
    c.enc(e.ct) + [DOT] + c.enc(e.mac)
  }

  function ParseLine(c: Codec, line: seq<byte>): Option<Entry> {
    var i := IndexOf(line, DOT);
    if i == 0 || i == |line| then None
    else
      match (c.dec(line[..i]), c.dec(line[i + 1..]))
      case (Some(ct), Some(mac)) => Some(Entry(ct, mac))
      case _ => None
  }

  /** What the lines of a file say, blank lines skipped; None is a malformed line. */
  function Records(c: Codec, lines: seq<seq<byte>>): seq<Option<Entry>> {
    if lines == [] then []
    else
      var line := TrimSpace(lines[0]);
      var rest := Records(c, lines[1..]);
      if line == [] then rest else [ParseLine(c, line)] + rest
  }

  /** A line this long or longer stops the scanner. */
  const LINE_MAX := 8 * 1024 * 1024

  predicate Scannable(lines: seq<seq<byte>>) {
    forall k :: 0 <= k < |lines| ==> |lines[k]| < LINE_MAX
  }

  /** How many lines the scanner delivers. */
  function Scanned(lines: seq<seq<byte>>): (n: nat)
    ensures n <= |lines| && Scannable(lines[..n])
    ensures n < |lines| ==> |lines[n]| >= LINE_MAX
  {
    if lines == [] || |lines[0]| >= LINE_MAX then 0
    else
      var n := 1 + Scanned(lines[1..]);
      assert lines[..n] == [lines[0]] + lines[1..][..n - 1];
      n
  }

  function FileRecords(c: Codec, data: seq<byte>): seq<Option<Entry>> {
    Records(c, Split(data, LF))
  }

  /** A file that holds exactly these entries, one line each. */
  function Content(c: Codec, entries: seq<Entry>): seq<byte> {
    if entries == [] then [] else LineText(c, entries[0]) + [LF] + Content(c, entries[1..])
  }

  // ---------------------------------------------------------------------------
  // Verification
  // ---------------------------------------------------------------------------

  /** Accepted is a nil error; Broken is ErrChainBroken, with the events before the break; Unfinished is an
      error of the scanner, with the events before it; Malformed is any other, which returns no events. */
  datatype Verdict =
    | Accepted(events: seq<Event>)
    | Broken(events: seq<Event>)
    | Unfinished(events: seq<Event>)
    | Malformed

  /** What opening and reading a file brings; with `err` reading fails after `data`. */
  datatype FileResult = Absent | Unreadable | Contents(data: seq<byte>, err: bool)

  function Verify(c: Codec, v: Vault, prev: seq<byte>, records: seq<Option<Entry>>, events: seq<Event>): Verdict
    decreases |records|
  {
    if records == [] then Accepted(events)
    else if records[0] == None then Malformed
    else
      var e := records[0].value;
      if Mac(v, prev, e.ct) != e.mac then Broken(events)
      else
        var plain := Open(v, e.ct);
        if plain == None then Broken(events)
        else
          var ev := c.unmarshal(plain.value);
          if ev == None then Malformed
          else Verify(c, v, e.mac, records[1..], events + [ev.value])
  }

  /** An absent file verifies as an empty trail. */
  function ReadVerdict(c: Codec, v: Vault, file: FileResult): Verdict {
    match file
    case Absent => Accepted([])
    case Unreadable => Malformed
    case Contents(data, err) =>
      var lines := Split(data, LF);
      var n := Scanned(lines);
      var verdict := Verify(c, v, Mac(v, [], GENESIS), Records(c, lines[..n]), []);
      if verdict.Accepted? && (n < |lines| || err) then Unfinished(verdict.events) else verdict
  }

  /** The comparison of MACs: every byte of both is looked at. */
  method HmacEqual(a: seq<byte>, b: seq<byte>) returns (eq: bool)
    ensures eq <==> a == b
  {
    if |a| != |b| {
      return false;
    }
    var v: byte := 0;
    for k := 0 to |a|
      invariant v == 0 <==> a[..k] == b[..k]
    {
      assert a[..k + 1] == a[..k] + [a[k]] && b[..k + 1] == b[..k] + [b[k]];
      OrXorZero(v, a[k], b[k]);
      v := v | (a[k] ^ b[k]);
    }
    assert a[..|a|] == a && b[..|b|] == b;
    eq := v == 0;
  }

  lemma OrXorZero(v: byte, a: byte, b: byte)
    ensures v | (a ^ b) == 0 <==> v == 0 && a == b
  {
    XorZero(a, b);
    OrZero(v, a ^ b);
  }

  lemma XorZero(a: byte, b: byte)
    ensures a ^ b == 0 <==> a == b
  {
  }

  lemma OrZero(a: byte, b: byte)
    ensures a | b == 0 <==> a == 0 && b == 0
  {
  }

  method ReadAll(c: Codec, v: Vault, file: FileResult) returns (verdict: Verdict)
    ensures verdict == ReadVerdict(c, v, file)
  {
    if file.Absent? {
      return Accepted([]);
    }
    if file.Unreadable? {
      return Malformed;
    }
    hide TrimSpace, ParseLine, Split, Mac, Open, Records, Verify;
    var prev := Mac(v, [], GENESIS);
    var events: seq<Event> := [];
    var lines := Split(file.data, LF);
    ghost var n := Scanned(lines);
    ghost var scanned := lines[..n];
    ghost var whole := Verify(c, v, prev, Records(c, scanned), []);
    assert scanned[0..] == scanned;
    for k := 0 to |lines|
      invariant k <= n
      invariant Verify(c, v, prev, Records(c, scanned[k..]), events) == whole
    {
      if |lines[k]| >= LINE_MAX {
        assert k == n && scanned[k..] == [];
        ScanEnds(c, v, prev, events);
        return Unfinished(events);
      }
      RecordsStep(c, scanned, k);
      var line := TrimSpace(lines[k]);
      if line == [] {
        continue;
      }
      var record := ParseLine(c, line);
      VerifyStep(c, v, prev, record, Records(c, scanned[k + 1..]), events);
      if record == None {
        return Malformed;
      }
      var e := record.value;
      var want := Mac(v, prev, e.ct);
      var same := HmacEqual(want, e.mac);
      if !same {
        return Broken(events);
      }
      var plain := Open(v, e.ct);
      if plain == None {
        return Broken(events);
      }
      var ev := c.unmarshal(plain.value);
      if ev == None {
        return Malformed;
      }
      events := events + [ev.value];
      prev := e.mac;
    }
    assert scanned[|lines|..] == [];
    ScanEnds(c, v, prev, events);
    return if file.err then Unfinished(events) else Accepted(events);
  }

  lemma ScanEnds(c: Codec, v: Vault, prev: seq<byte>, events: seq<Event>)
    ensures Verify(c, v, prev, Records(c, []), events) == Accepted(events)
  {
  }

  lemma RecordsNone(c: Codec)
    ensures Records(c, []) == []
  {
  }

  lemma VerifyStep(c: Codec, v: Vault, prev: seq<byte>, record: Option<Entry>, rest: seq<Option<Entry>>, events: seq<Event>)
    ensures Verify(c, v, prev, [record] + rest, events) ==
            if record == None then Malformed
            else
              var e := record.value;
              if Mac(v, prev, e.ct) != e.mac || Open(v, e.ct) == None then Broken(events)
              else
                var ev := c.unmarshal(Open(v, e.ct).value);
                if ev == None then Malformed else Verify(c, v, e.mac, rest, events + [ev.value])
  {
    hide Mac, Open;
    assert ([record] + rest)[1..] == rest;
  }

  lemma RecordsStep(c: Codec, lines: seq<seq<byte>>, k: nat)
    requires k < |lines|
    ensures var line := TrimSpace(lines[k]);
            var rest := Records(c, lines[k + 1..]);
            Records(c, lines[k..]) == if line == [] then rest else [ParseLine(c, line)] + rest
  {
    hide TrimSpace, ParseLine;
    assert lines[k..][1..] == lines[k + 1..];
  }

  // ---------------------------------------------------------------------------
  // Appending
  // ---------------------------------------------------------------------------

  /** The MAC the next line must commit to; None if the file or its last line cannot be read. */
  function ChainTip(c: Codec, v: Vault, file: FileResult): Option<seq<byte>> {
    match file
    case Absent => Some(Mac(v, [], GENESIS))
    case Unreadable => None
    case Contents(data, err) =>
      if err then None
      else if TrimSpace(data) == [] then Some(Mac(v, [], GENESIS))
      else
        var lines := Split(TrimSpace(data), LF);
        var last := ParseLine(c, lines[|lines| - 1]);
        if last == None then None else Some(last.value.mac)
  }

  /** A running logger as a value: its key, its file, and the MAC its next line commits to. */
  datatype State = State(v: Vault, file: seq<byte>, tip: seq<byte>)

  /** The logger that a start leaves; opening for appending creates a file that is absent. */
  function Opened(c: Codec, v: Vault, file: FileResult): Option<State> {
    match ChainTip(c, v, file)
    case None => None
    case Some(tip) => Some(State(v, if file.Absent? then [] else file.data, tip))
  }

  /** There is no file, or nothing but white space in it. */
  predicate NothingYet(file: FileResult) {
    file.Absent? || (file.Contents? && !file.err && Blank(file.data))
  }

  /** What a call of Emit leaves: the file and the chain tip. `nonce` is None if the random source fails. */
  function Emitted(c: Codec, v: Vault, file: seq<byte>, tip: seq<byte>,
                   e: Event, nonce: Option<Nonce>, writeOk: bool): (seq<byte>, seq<byte>)
  {
    if Recorded(c, e, nonce, writeOk) then
      var ct := Seal(v, nonce.value, c.marshal(e).value);
      var entry := Entry(ct, Mac(v, tip, ct));
      (file + (LineText(c, entry) + [LF]), entry.mac)
    else (file, tip)
  }

  /** The event reaches the trail. */
  predicate Recorded(c: Codec, e: Event, nonce: Option<Nonce>, writeOk: bool) {
    c.marshal(e) != None && nonce != None && writeOk
  }

  class Logger {
    const c: Codec
    const v: Vault
    var file: seq<byte>
    var prevMAC: seq<byte>

    constructor (c: Codec, v: Vault, file: seq<byte>, prevMAC: seq<byte>)
      ensures this.c == c && this.v == v && this.file == file && this.prevMAC == prevMAC
    {
      this.c, this.v, this.file, this.prevMAC := c, v, file, prevMAC;
    }

    /** `openOk` is the outcome of opening for appending. */
    static method New(c: Codec, v: Vault, file: FileResult, openOk: bool) returns (l: Option<Logger>)
      ensures l == None <==> Opened(c, v, file) == None || !openOk
      ensures l != None ==>
                && fresh(l.value) && l.value.c == c
                && State(l.value.v, l.value.file, l.value.prevMAC) == Opened(c, v, file).value
      ensures NothingYet(file) && openOk ==> l != None && l.value.prevMAC == v.hmac(GENESIS)
    {
      assert [] + GENESIS == GENESIS;
      var tip := ChainTip(c, v, file);
      if tip == None || !openOk {
        return None;
      }
      var logger := new Logger(c, v, if file.Absent? then [] else file.data, tip.value);
      return Some(logger);
    }

    method Emit(e: Event, nonce: Option<Nonce>, writeOk: bool)
      modifies this
      ensures (file, prevMAC) == Emitted(c, v, old(file), old(prevMAC), e, nonce, writeOk)
    {
      var plain := c.marshal(e);
      if plain == None {
        return;
      }
      if nonce != None {
        var ct := Seal(v, nonce.value, plain.value);
        var mac := Mac(v, prevMAC, ct);
        if writeOk {
          file := file + (c.enc(ct) + [DOT] + c.enc(mac) + [LF]);
          prevMAC := mac;
        }
      }
    }
  }

  // ---------------------------------------------------------------------------
  // Re-keying
  // ---------------------------------------------------------------------------

  /** The lines re-sealed and re-chained from `prev` on, after those already `done`; `nonces` feeds the
      new vault's random source. The old MACs are not looked at. */
  function Rechain(c: Codec, oldV: Vault, newV: Vault, prev: seq<byte>, records: seq<Option<Entry>>,
                   nonces: seq<Option<Nonce>>, done: seq<Entry>): Option<seq<Entry>>
    decreases |records|
  {
    if records == [] then Some(done)
    else if records[0] == None then None
    else
      var plain := Open(oldV, records[0].value.ct);
      if plain == None || nonces == [] || nonces[0] == None then None
      else
        var ct := Seal(newV, nonces[0].value, plain.value);
        var e := Entry(ct, Mac(newV, prev, ct));
        Rechain(c, oldV, newV, e.mac, records[1..], nonces[1..], done + [e])
  }

  /** The file after Rekey, or None if it fails and the old file stays. */
  function Rekeyed(c: Codec, oldV: Vault, newV: Vault, data: seq<byte>, nonces: seq<Option<Nonce>>): Option<seq<byte>> {
    match Rechain(c, oldV, newV, Mac(newV, [], GENESIS), FileRecords(c, TrimSpace(data)), nonces, [])
    case None => None
    case Some(entries) => Some(Content(c, entries))
  }

  lemma RechainStep(c: Codec, oldV: Vault, newV: Vault, prev: seq<byte>, record: Option<Entry>,
                    rest: seq<Option<Entry>>, nonces: seq<Option<Nonce>>, used: nat, done: seq<Entry>)
    requires used <= |nonces|
    ensures Rechain(c, oldV, newV, prev, [record] + rest, nonces[used..], done) ==
            if record == None || Open(oldV, record.value.ct) == None || used == |nonces| || nonces[used] == None then None
            else
              var ct := Seal(newV, nonces[used].value, Open(oldV, record.value.ct).value);
              var e := Entry(ct, Mac(newV, prev, ct));
              Rechain(c, oldV, newV, e.mac, rest, nonces[used + 1..], done + [e])
  {
    hide Mac, Open, Seal;
    assert ([record] + rest)[1..] == rest;
    if used < |nonces| {
      assert nonces[used..][1..] == nonces[used + 1..];
    }
  }

  method Rekey(c: Codec, oldV: Vault, newV: Vault, data: seq<byte>, nonces: seq<Option<Nonce>>)
    returns (result: Option<seq<byte>>)
    ensures result == Rekeyed(c, oldV, newV, data, nonces)
  {
    var out: seq<byte> := [];
    var prev := Mac(newV, [], GENESIS);
    var used := 0;
    ghost var done: seq<Entry> := [];
    var lines := Split(TrimSpace(data), LF);
    assert lines[0..] == lines;
    assert nonces[0..] == nonces;
    ghost var whole := Rechain(c, oldV, newV, prev, Records(c, lines), nonces, []);
    hide TrimSpace, ParseLine, Split, Mac, Open, Seal, Records, Rechain, Content;
    ContentNone(c);
    for k := 0 to |lines|
      invariant used <= |nonces| && out == Content(c, done)
      invariant whole == Rechain(c, oldV, newV, prev, Records(c, lines[k..]), nonces[used..], done)
    {
      RecordsStep(c, lines, k);
      var line := TrimSpace(lines[k]);
      if line == [] {
        continue;
      }
      var record := ParseLine(c, line);
      RechainStep(c, oldV, newV, prev, record, Records(c, lines[k + 1..]), nonces, used, done);
      if record == None {
        return None;
      }
      var plain := Open(oldV, record.value.ct);
      if plain == None {
        return None;
      }
      if used == |nonces| || nonces[used] == None {
        return None;
      }
      var ct := Seal(newV, nonces[used].value, plain.value);
      used := used + 1;
      var mac := Mac(newV, prev, ct);
      out := out + (c.enc(ct) + [DOT] + c.enc(mac) + [LF]);
      ContentSnoc(c, done, Entry(ct, mac));
      done := done + [Entry(ct, mac)];
      prev := mac;
    }
    assert lines[|lines|..] == [];
    RecordsNone(c);
    RechainNone(c, oldV, newV, prev, nonces[used..], done);
    return Some(out);
  }

  lemma RechainNone(c: Codec, oldV: Vault, newV: Vault, prev: seq<byte>, nonces: seq<Option<Nonce>>, done: seq<Entry>)
    ensures Rechain(c, oldV, newV, prev, [], nonces, done) == Some(done)
  {
  }

  lemma ContentNone(c: Codec)
    ensures Content(c, []) == []
  {
  }

  lemma {:induction false} ContentSnoc(c: Codec, entries: seq<Entry>, e: Entry)
    ensures Content(c, entries + [e]) == Content(c, entries) + (LineText(c, e) + [LF])
  {
    if entries == [] {
      assert [e][1..] == [];
    } else {
      assert (entries + [e])[1..] == entries[1..] + [e];
      ContentSnoc(c, entries[1..], e);
    }
  }
}
