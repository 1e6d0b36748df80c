/** The trail as a file of text, over whole runs: emits, failures, restarts and key rotations. */
module AuditRuns {
  import opened Bytes
  import opened Text
  import opened Vaults
  import opened Audit
  import opened AuditTrail

  // ---------------------------------------------------------------------------
  // Text
  // ---------------------------------------------------------------------------

  lemma NewlineTrimmed(s: seq<byte>)
    requires s != [] && Plain(s[0]) && Plain(s[|s| - 1])
    ensures TrimSpace(s + [LF]) == s
  {
    hide TrimLeft, Plain;
    var t := s + [LF];
    assert t[0] == s[0];
    LeftStays(t);
    NoTailSpace(s);
    RightStops(s);
    assert t[|t| - 1..] == [LF] && t[..|t| - 1] == s;
    assert TailSpace(t) == 1;
  }

  /** A line is text without blanks, and says what was put in it. */
  lemma LineReadsBack(c: Codec, e: Entry)
    requires Lawful(c) && e.ct != [] && e.mac != []
    ensures var t := LineText(c, e);
            && t != [] && LF !in t && Plain(t[0]) && Plain(t[|t| - 1])
            && TrimSpace(t) == t && ParseLine(c, t) == Some(e)
  {
    hide TrimSpace, Plain, Lawful;
    var x, y := c.enc(e.ct), c.enc(e.mac);
    var t := x + [DOT] + y;
    EncodingPlain(c, e.ct);
    EncodingPlain(c, e.mac);
    assert t[0] == x[0] && t[|t| - 1] == y[|y| - 1];
    EndsPlain(t);
    IndexOfFirst(x, DOT, y);
    hide IndexOf;
    assert t[..|x|] == x && t[|x| + 1..] == y;
  }

  lemma EncodingPlain(c: Codec, x: seq<byte>)
    requires Lawful(c) && x != []
    ensures c.dec(c.enc(x)) == Some(x) && c.enc(x) != []
    ensures DOT !in c.enc(x) && LF !in c.enc(x)
    ensures Plain(c.enc(x)[0]) && Plain(c.enc(x)[|c.enc(x)| - 1])
  {
    var t := c.enc(x);
    assert !Base64Char(DOT) && !Base64Char(LF);
    assert t[0] in t && t[|t| - 1] in t;
    assert Base64Char(t[0]) && Base64Char(t[|t| - 1]);
  }

  ghost predicate Filled(entries: seq<Entry>) {
    forall k :: 0 <= k < |entries| ==> entries[k].ct != [] && entries[k].mac != []
  }

  /** The file without its final newline. */
  function Joined(c: Codec, entries: seq<Entry>): seq<byte>
    requires entries != []
  {
    var t := LineText(c, entries[0]);
    if |entries| == 1 then t else t + [LF] + Joined(c, entries[1..])
  }

  function Texts(c: Codec, entries: seq<Entry>): seq<seq<byte>> {
    if entries == [] then [] else [LineText(c, entries[0])] + Texts(c, entries[1..])
  }

  lemma {:induction false} JoinedShape(c: Codec, entries: seq<Entry>)
    requires Lawful(c) && Filled(entries) && entries != []
    ensures var s := Joined(c, entries);
            && Content(c, entries) == s + [LF]
            && Split(s, LF) == Texts(c, entries)
            && s != [] && Plain(s[0]) && Plain(s[|s| - 1])
  {
    hide LineText, TrimSpace, ParseLine, Plain, Lawful;
    var t := LineText(c, entries[0]);
    LineReadsBack(c, entries[0]);
    if |entries| == 1 {
      assert entries[1..] == [];
      ContentNone(c);
      assert t + [LF] + [] == t + [LF];
      SplitWhole(t, LF);
      assert Texts(c, entries[1..]) == [];
    } else {
      var rest := entries[1..];
      JoinedShape(c, rest);
      SplitFirst(t, LF, Joined(c, rest));
      assert t + [LF] + (Joined(c, rest) + [LF]) == (t + [LF] + Joined(c, rest)) + [LF];
    }
  }

  lemma {:induction false} TextRecords(c: Codec, entries: seq<Entry>)
    requires Lawful(c) && Filled(entries)
    ensures Records(c, Texts(c, entries)) == AsRecords(entries)
    ensures |Texts(c, entries)| == |entries|
    ensures entries != [] ==> Texts(c, entries)[|entries| - 1] == LineText(c, entries[|entries| - 1])
  {
    hide LineText, TrimSpace, ParseLine;
    if entries != [] {
      LineReadsBack(c, entries[0]);
      TextRecords(c, entries[1..]);
      var texts := Texts(c, entries);
      assert texts[1..] == Texts(c, entries[1..]);
      assert AsRecords(entries) == [Some(entries[0])] + AsRecords(entries[1..]);
    }
  }

  lemma {:induction false} SplitNewline(s: seq<byte>, sep: byte)
    ensures Split(s + [sep], sep) == Split(s, sep) + [[]]
  {
    if s == [] {
      assert [sep][1..] == [];
      assert s + [sep] == [sep];
    } else {
      assert (s + [sep])[1..] == s[1..] + [sep];
      SplitNewline(s[1..], sep);
    }
  }

  lemma {:induction false} RecordsConcat(c: Codec, x: seq<seq<byte>>, y: seq<seq<byte>>)
    ensures Records(c, x + y) == Records(c, x) + Records(c, y)
  {
    hide TrimSpace, ParseLine;
    if x == [] {
      assert x + y == y;
    } else {
      assert (x + y)[1..] == x[1..] + y;
      RecordsConcat(c, x[1..], y);
    }
  }

  /** What follows the last newline is no record. */
  lemma NoRecord(c: Codec)
    ensures Records(c, [[]]) == []
  {
    NothingTrims();
  }

  /** A file of lines says its entries, with or without its final newline. */
  lemma ContentReadsBack(c: Codec, entries: seq<Entry>)
    requires Lawful(c) && Filled(entries)
    ensures FileRecords(c, Content(c, entries)) == AsRecords(entries)
    ensures FileRecords(c, TrimSpace(Content(c, entries))) == AsRecords(entries)
  {
    hide TrimSpace, Records, Lawful;
    TextRecords(c, entries);
    if entries == [] {
      ContentNone(c);
      NothingTrims();
      NoRecord(c);
      RecordsNone(c);
      assert [] + [[]] == Split([], LF);
    } else {
      var s := Joined(c, entries);
      JoinedShape(c, entries);
      SplitNewline(s, LF);
      RecordsConcat(c, Split(s, LF), [[]]);
      NoRecord(c);
      NewlineTrimmed(s);
    }
  }

  /** The tip recovered from a file of lines is the last entry's MAC, or the genesis MAC, and that from a file
      with white space alone is the genesis MAC. */
  lemma TipRecovered(c: Codec, v: Vault, blank: seq<byte>, entries: seq<Entry>)
    requires Lawful(c) && Blank(blank) && Filled(entries)
    ensures ChainTip(c, v, Contents(blank + Content(c, entries), false)) == Some(Prev(v, entries, |entries|))
  {
    hide TrimSpace, Records, LineText, ParseLine, Blank;
    BlankIgnored(blank, Content(c, entries));
    TextRecords(c, entries);
    if entries == [] {
      ContentNone(c);
      NothingTrims();
    } else {
      var s := Joined(c, entries);
      JoinedShape(c, entries);
      NewlineTrimmed(s);
      LineReadsBack(c, entries[|entries| - 1]);
    }
  }

  lemma {:induction false} SplitLast(x: seq<byte>, last: seq<byte>, sep: byte)
    requires sep !in last && (x == [] || x[|x| - 1] == sep)
    ensures var pieces := Split(x + last, sep); pieces[|pieces| - 1] == last && (x != [] ==> |pieces| > 1)
    decreases |x|
  {
    if x == [] {
      assert x + last == last;
      SplitWhole(last, sep);
    } else {
      assert (x + last)[0] == x[0] && (x + last)[1..] == x[1..] + last;
      assert |x| > 1 ==> x[1..][|x| - 2] == sep;
      SplitLast(x[1..], last, sep);
    }
  }

  /** The tip of any file with some text in it: the MAC of its last line, if that is well formed. */
  lemma TipExactly(c: Codec, v: Vault, data: seq<byte>, x: seq<byte>, last: seq<byte>)
    requires !Blank(data) && TrimSpace(data) == x + last && 0x0A !in last && (x == [] || x[|x| - 1] == 0x0A)
    ensures var tip := ChainTip(c, v, Contents(data, false));
            && (tip == None <==> ParseLine(c, last) == None)
            && forall e :: ParseLine(c, last) == Some(e) ==> tip == Some(e.mac)
  {
    hide TrimSpace, ParseLine;
    SplitLast(x, last, LF);
  }

  // ---------------------------------------------------------------------------
  // White space before the first line
  // ---------------------------------------------------------------------------

  lemma SpaceAndLine(w: seq<byte>)
    requires IsSpace(w)
    ensures w == [LF] || LF !in w
  {
  }

  lemma SpaceIsBlank(w: seq<byte>)
    requires IsSpace(w)
    ensures Blank(w)
  {
    var n := HeadSpace(w);
    assert n == |w| && w[n..] == [];
    NothingTrims();
    LeftStep(w);
    LeftStep([]);
  }

  lemma {:induction false} SplitAfter(w: seq<byte>, s: seq<byte>, sep: byte)
    requires sep !in w
    ensures var pieces := Split(s, sep); Split(w + s, sep) == [w + pieces[0]] + pieces[1..]
    decreases |w|
  {
    var pieces := Split(s, sep);
    if w == [] {
      assert w + s == s && w + pieces[0] == pieces[0];
    } else {
      assert (w + s)[0] == w[0] && (w + s)[1..] == w[1..] + s;
      SplitAfter(w[1..], s, sep);
      assert [w[0]] + (w[1..] + pieces[0]) == w + pieces[0];
    }
  }

  lemma SpaceSkipped(c: Codec, w: seq<byte>, s: seq<byte>)
    requires IsSpace(w)
    ensures FileRecords(c, w + s) == FileRecords(c, s)
  {
    hide IsSpace, TrimSpace, ParseLine, Split, Blank;
    var lines := Split(s, LF);
    SpaceAndLine(w);
    if w == [LF] {
      assert [] + [LF] + s == w + s;
      SplitFirst([], LF, s);
      NothingTrims();
      assert ([[]] + lines)[1..] == lines;
    } else {
      SplitAfter(w, s, LF);
      SpaceIsBlank(w);
      BlankIgnored(w, lines[0]);
      assert ([w + lines[0]] + lines[1..])[1..] == lines[1..];
    }
  }

  /** White space before its first line adds nothing to what a file says. */
  lemma {:induction false} BlankSkipped(c: Codec, blank: seq<byte>, s: seq<byte>)
    requires TrimLeft(blank) == []
    ensures FileRecords(c, blank + s) == FileRecords(c, s)
    decreases |blank|
  {
    hide IsSpace, HeadSpace, TrimLeft, FileRecords;
    if blank == [] {
      assert blank + s == s;
    } else {
      var n := HeadSpace(blank);
      LeftStep(blank);
      HeadIsSpace(blank);
      var w, rest := blank[..n], blank[n..];
      assert blank + s == w + (rest + s);
      SpaceSkipped(c, w, rest + s);
      BlankSkipped(c, rest, s);
    }
  }

  // ---------------------------------------------------------------------------
  // Re-keying
  // ---------------------------------------------------------------------------

  /** The new vault's random source delivers for each of `n` entries. */
  predicate Enough(nonces: seq<Option<Nonce>>, n: nat) {
    n <= |nonces| && forall k :: 0 <= k < n ==> nonces[k] != None
  }

  lemma TrailGrows(c: Codec, v: Vault, entries: seq<Entry>, events: seq<Event>, nonce: Nonce, plain: seq<byte>, ev: Event)
    requires Sound(v) && Trail(c, v, entries, events) && Filled(entries)
    requires c.unmarshal(plain) == Some(ev)
    ensures var ct := Seal(v, nonce, plain);
            var more := entries + [Entry(ct, Mac(v, Prev(v, entries, |entries|), ct))];
            Trail(c, v, more, events + [ev]) && Filled(more)
            && Prev(v, more, |more|) == Mac(v, Prev(v, entries, |entries|), ct)
  {
    hide Seal, Open;
    var ct := Seal(v, nonce, plain);
    var n := |entries|;
    var e := Entry(ct, Mac(v, Prev(v, entries, n), ct));
    var more := entries + [e];
    OpenSealed(v, nonce, plain);
    forall k | 0 <= k < n + 1 ensures Good(c, v, more, k, (events + [ev])[k]) {
      assert Prev(v, more, k) == Prev(v, entries, k);
      if k < n {
        assert Good(c, v, entries, k, events[k]);
      }
    }
    assert |e.mac| == MAC_SIZE;
  }

  /** Re-chaining from entry `n` on. */
  lemma {:induction false} RechainTrail(c: Codec, oldV: Vault, newV: Vault, entries: seq<Entry>, events: seq<Event>,
                                        n: nat, nonces: seq<Option<Nonce>>, done: seq<Entry>)
    requires Sound(newV) && Trail(c, oldV, entries, events)
    requires n <= |entries| && Filled(done) && Trail(c, newV, done, events[..n])
    ensures var r := Rechain(c, oldV, newV, Prev(newV, done, n), AsRecords(entries)[n..], nonces, done);
            && (r != None <==> Enough(nonces, |entries| - n))
            && (r != None ==> Trail(c, newV, r.value, events) && Filled(r.value))
    decreases |entries| - n
  {
    hide Open, Seal, Mac;
    var records := AsRecords(entries);
    if n == |entries| {
      assert records[n..] == [] && events[..n] == events;
    } else {
      assert records[n..] == [Some(entries[n])] + records[n + 1..];
      assert nonces[0..] == nonces;
      RechainStep(c, oldV, newV, Prev(newV, done, n), Some(entries[n]), records[n + 1..], nonces, 0, done);
      assert Good(c, oldV, entries, n, events[n]);
      hide Rechain;
      if nonces != [] && nonces[0] != None {
        var plain := Open(oldV, entries[n].ct).value;
        var ct := Seal(newV, nonces[0].value, plain);
        var more := done + [Entry(ct, Mac(newV, Prev(newV, done, n), ct))];
        TrailGrows(c, newV, done, events[..n], nonces[0].value, plain, events[n]);
        assert events[..n] + [events[n]] == events[..n + 1];
        RechainTrail(c, oldV, newV, entries, events, n + 1, nonces[1..], more);
        EnoughStep(nonces, |entries| - n);
      }
    }
  }

  /** When a re-keying succeeds, for any file: when every line can be read and opened, and the random source
      delivers for each. The new file is a chain under the new key of what the lines opened to; whether the old
      one was a chain does not matter. */
  lemma RekeyExactly(c: Codec, oldV: Vault, newV: Vault, data: seq<byte>, nonces: seq<Option<Nonce>>)
    returns (renewed: seq<Entry>)
    requires Sound(newV)
    ensures var records := FileRecords(c, TrimSpace(data));
            var r := Rekeyed(c, oldV, newV, data, nonces);
            && (r != None <==> AllOpen(oldV, records) && Enough(nonces, |records|))
            && (r != None ==> r == Some(Content(c, renewed)) && CarriedOver(oldV, newV, records, renewed))
  {
    hide FileRecords, TrimSpace, Rechain, Content, Sound;
    var records := FileRecords(c, TrimSpace(data));
    renewed := RechainExactly(c, oldV, newV, records, nonces, []);
    assert records[0..] == records;
  }

  ghost predicate AllOpen(v: Vault, records: seq<Option<Entry>>) {
    forall k :: 0 <= k < |records| ==> records[k] != None && Open(v, records[k].value.ct) != None
  }

  /** The entries are chained from the genesis MAC on, and each opens to what the record opened to. */
  ghost predicate CarriedOver(oldV: Vault, newV: Vault, records: seq<Option<Entry>>, entries: seq<Entry>) {
    && |entries| == |records|
    && (forall k :: 0 <= k < |entries| ==> Linked(newV, entries, k))
    && (forall k :: 0 <= k < |entries| ==>
          records[k] != None && Open(newV, entries[k].ct) == Open(oldV, records[k].value.ct))
  }

  /** One more entry. */
  lemma CarryOne(oldV: Vault, newV: Vault, records: seq<Option<Entry>>, done: seq<Entry>, e: Entry)
    requires |done| < |records| && CarriedOver(oldV, newV, records[..|done|], done)
    requires var n := |done|;
             && records[n] != None && Open(newV, e.ct) == Open(oldV, records[n].value.ct)
             && e.mac == Mac(newV, Prev(newV, done, n), e.ct)
    ensures CarriedOver(oldV, newV, records[..|done| + 1], done + [e])
  {
    hide Open;
    var n, more := |done|, done + [e];
    forall k | 0 <= k < n + 1 ensures Linked(newV, more, k) {
      assert Prev(newV, more, k) == Prev(newV, done, k);
      if k < n {
        assert Linked(newV, done, k);
      }
    }
    forall k | 0 <= k < n + 1
      ensures records[k] != None && Open(newV, more[k].ct) == Open(oldV, records[k].value.ct)
    {
      if k < n {
        assert records[..n][k] == records[k];
      }
    }
  }

  lemma AllOpenStep(v: Vault, records: seq<Option<Entry>>, n: nat)
    requires n < |records|
    ensures AllOpen(v, records[n..]) <==>
            records[n] != None && Open(v, records[n].value.ct) != None && AllOpen(v, records[n + 1..])
  {
    hide Open;
    var here, tail := records[n..], records[n + 1..];
    assert here == [records[n]] + tail && here[1..] == tail;
    forall k | 0 < k < |here| && AllOpen(v, tail) ensures here[k] != None && Open(v, here[k].value.ct) != None {
      assert here[k] == tail[k - 1];
    }
    forall k | 0 <= k < |tail| && AllOpen(v, here) ensures tail[k] != None && Open(v, tail[k].value.ct) != None {
      assert tail[k] == here[k + 1];
    }
  }

  lemma {:induction false} RechainExactly(c: Codec, oldV: Vault, newV: Vault, records: seq<Option<Entry>>,
                                          nonces: seq<Option<Nonce>>, done: seq<Entry>)
    returns (renewed: seq<Entry>)
    requires Sound(newV) && |done| <= |records| && CarriedOver(oldV, newV, records[..|done|], done)
    ensures var n := |done|;
            var r := Rechain(c, oldV, newV, Prev(newV, done, n), records[n..], nonces, done);
            && (r != None <==> AllOpen(oldV, records[n..]) && Enough(nonces, |records| - n))
            && (r != None ==> r == Some(renewed) && CarriedOver(oldV, newV, records, renewed))
    decreases |records| - |done|
  {
    hide Open, Seal, Mac, CarriedOver, AllOpen, Sound, Prev;
    var n := |done|;
    renewed := done;
    if n == |records| {
      assert records[..n] == records && records[n..] == [];
      NoneOpen(oldV);
    } else {
      assert records[n..] == [records[n]] + records[n + 1..];
      assert nonces[0..] == nonces;
      RechainStep(c, oldV, newV, Prev(newV, done, n), records[n], records[n + 1..], nonces, 0, done);
      AllOpenStep(oldV, records, n);
      hide Rechain;
      if records[n] != None && Open(oldV, records[n].value.ct) != None && nonces != [] && nonces[0] != None {
        var plain := Open(oldV, records[n].value.ct).value;
        var ct := Seal(newV, nonces[0].value, plain);
        var e := Entry(ct, Mac(newV, Prev(newV, done, n), ct));
        OpenSealed(newV, nonces[0].value, plain);
        CarryOne(oldV, newV, records, done, e);
        PrevLast(newV, done, e);
        renewed := RechainExactly(c, oldV, newV, records, nonces[1..], done + [e]);
        EnoughStep(nonces, |records| - n);
      }
    }
  }

  lemma NoneOpen(v: Vault)
    ensures AllOpen(v, [])
  {
  }

  lemma PrevLast(v: Vault, entries: seq<Entry>, e: Entry)
    ensures Prev(v, entries + [e], |entries| + 1) == e.mac
  {
  }

  lemma EnoughStep(nonces: seq<Option<Nonce>>, n: nat)
    requires n > 0 && nonces != [] && nonces[0] != None
    ensures Enough(nonces, n) <==> Enough(nonces[1..], n - 1)
  {
    var rest := nonces[1..];
    if Enough(rest, n - 1) {
      forall k | 0 <= k < n ensures nonces[k] != None {
        if k > 0 {
          assert rest[k - 1] == nonces[k];
        }
      }
    }
  }

  /** Re-keying a trail succeeds exactly when the random source does, and the new file is a trail of the same
      events in the same order under the new key; it reads as them if and only if no line is too long. */
  lemma RekeyPreserves(c: Codec, oldV: Vault, newV: Vault, entries: seq<Entry>, events: seq<Event>,
                       nonces: seq<Option<Nonce>>) returns (renewed: seq<Entry>)
    requires Lawful(c) && Sound(newV) && Trail(c, oldV, entries, events) && Filled(entries)
    ensures var r := Rekeyed(c, oldV, newV, Content(c, entries), nonces);
            && (r != None <==> Enough(nonces, |entries|))
            && (r != None ==>
                  && r == Some(Content(c, renewed)) && Filled(renewed) && Trail(c, newV, renewed, events)
                  && (ReadVerdict(c, newV, Contents(r.value, false)) == Accepted(events) <==> AllShort(c, renewed)))
  {
    hide Rechain, Lawful, Sound, Trail;
    ContentReadsBack(c, entries);
    assert AsRecords(entries)[0..] == AsRecords(entries);
    EmptyTrail(c, newV, events);
    RechainTrail(c, oldV, newV, entries, events, 0, nonces, []);
    var r := Rechain(c, oldV, newV, Mac(newV, [], GENESIS), AsRecords(entries), nonces, []);
    if r != None {
      renewed := r.value;
      var n := TrailReads(c, newV, renewed, events);
    } else {
      renewed := [];
    }
  }

  lemma EmptyTrail(c: Codec, v: Vault, events: seq<Event>)
    ensures Trail(c, v, [], events[..0]) && Filled([])
  {
  }

  /** No line of these entries is too long for the scanner. */
  predicate AllShort(c: Codec, entries: seq<Entry>) {
    forall k :: 0 <= k < |entries| ==> |LineText(c, entries[k])| < LINE_MAX
  }

  lemma {:induction false} TextsPrefix(c: Codec, entries: seq<Entry>, n: nat)
    requires n <= |entries|
    ensures |Texts(c, entries)| == |entries| && Texts(c, entries)[..n] == Texts(c, entries[..n])
    ensures forall k :: 0 <= k < |entries| ==> Texts(c, entries)[k] == LineText(c, entries[k])
  {
    hide LineText;
    if entries != [] {
      TextsPrefix(c, entries[1..], if n == 0 then 0 else n - 1);
      var texts := Texts(c, entries);
      assert texts[1..] == Texts(c, entries[1..]);
      if n > 0 {
        assert entries[..n][1..] == entries[1..][..n - 1];
        assert texts[..n] == [texts[0]] + texts[1..][..n - 1];
      }
    }
  }

  /** The lines of a file of these entries: theirs, and what follows the last newline. */
  lemma ContentLines(c: Codec, entries: seq<Entry>)
    requires Lawful(c) && Filled(entries)
    ensures Split(Content(c, entries), LF) == Texts(c, entries) + [[]]
  {
    hide Lawful;
    if entries == [] {
      ContentNone(c);
      assert [] + [[]] == Split([], LF);
    } else {
      JoinedShape(c, entries);
      SplitNewline(Joined(c, entries), LF);
    }
  }

  lemma FilledPrefix(entries: seq<Entry>, n: nat)
    requires Filled(entries) && n <= |entries|
    ensures Filled(entries[..n])
  {
  }

  /** How a trail reads: as its events, or, if a line is too long, as those before it and an error. */
  lemma TrailReads(c: Codec, v: Vault, entries: seq<Entry>, events: seq<Event>) returns (n: nat)
    requires Lawful(c) && Trail(c, v, entries, events) && Filled(entries)
    ensures n <= |entries| && (AllShort(c, entries) <==> n == |entries|)
    ensures n == |entries| <==> Scannable(Split(Content(c, entries), LF))
    ensures n < |entries| ==> |LineText(c, entries[n])| >= LINE_MAX
    ensures ReadVerdict(c, v, Contents(Content(c, entries), false)) ==
            if n == |entries| then Accepted(events) else Unfinished(events[..n])
  {
    hide Lawful, Trail, Verify, Split, Content, Records, LineText, Filled, AsRecords, Mac;
    var texts := Texts(c, entries);
    var lines := texts + [[]];
    var k := Scanned(lines);
    ContentLines(c, entries);
    TextsPrefix(c, entries, |entries|);
    assert |lines[|entries|]| == 0;
    n := if k > |entries| then |entries| else k;
    ScannedRecords(c, entries, texts, k, n);
    ScannedWhole(lines);
    hide Texts;
    assert forall j :: 0 <= j < n ==> |lines[..k][j]| < LINE_MAX;
    assert forall j :: 0 <= j < n ==> lines[..k][j] == texts[j] == LineText(c, entries[j]);
    assert k <= |entries| ==> lines[k] == texts[k];
    hide Scannable, AllShort;
    TrailSize(c, v, entries, events);
    PrefixTrail(c, v, entries, events, n);
    VerifiesIff(c, v, entries[..n]);
    assert n == |entries| ==> events[..n] == events;
  }

  /** What the lines before the `k`-th say. */
  lemma ScannedRecords(c: Codec, entries: seq<Entry>, texts: seq<seq<byte>>, k: nat, n: nat)
    requires Lawful(c) && Filled(entries) && texts == Texts(c, entries)
    requires k <= |texts| + 1 && n == if k > |entries| then |entries| else k
    ensures Records(c, (texts + [[]])[..k]) == AsRecords(entries[..n])
  {
    hide Lawful, Records, LineText, Filled, AsRecords;
    TextsPrefix(c, entries, n);
    FilledPrefix(entries, n);
    TextRecords(c, entries[..n]);
    hide Texts;
    if k > |entries| {
      assert entries[..n] == entries && texts[..n] == texts;
      assert (texts + [[]])[..k] == texts + [[]];
      RecordsConcat(c, texts, [[]]);
      NoRecord(c);
    } else {
      assert (texts + [[]])[..k] == texts[..n];
    }
  }

  lemma TrailSize(c: Codec, v: Vault, entries: seq<Entry>, events: seq<Event>)
    requires Trail(c, v, entries, events)
    ensures |entries| == |events|
  {
  }

  /** Cutting whole lines off the end of a trail goes unnoticed: what is left verifies, as the events that
      are left. */
  lemma TruncationUnnoticed(c: Codec, v: Vault, entries: seq<Entry>, events: seq<Event>, n: nat)
    requires Lawful(c) && Trail(c, v, entries, events) && Filled(entries) && n <= |entries|
    ensures AllShort(c, entries) ==>
              ReadVerdict(c, v, Contents(Content(c, entries[..n]), false)) == Accepted(events[..n])
  {
    hide Lawful, ReadVerdict, LineText;
    PrefixTrail(c, v, entries, events, n);
    var m := TrailReads(c, v, entries[..n], events[..n]);
    assert AllShort(c, entries) ==> AllShort(c, entries[..n]);
  }

  // ---------------------------------------------------------------------------
  // Runs
  // ---------------------------------------------------------------------------

  /** An emit, with the outcomes of its random source and its write; a restart of the logger; or a key
      rotation with the daemon stopped, which replaces the file only if all its I/O succeeds. */
  datatype Op =
    | Emit(e: Event, nonce: Option<Nonce>, writeOk: bool)
    | Restart
    | Rotate(newV: Vault, nonces: seq<Option<Nonce>>, ioOk: bool)

  /** A restart that fails leaves the daemon stopped, and the trail as it was. */
  function Reopened(c: Codec, v: Vault, file: seq<byte>, tip: seq<byte>): State {
    var st := Opened(c, v, Contents(file, false));
    if st == None then State.State(v, file, tip) else st.value
  }

  function Apply(c: Codec, st: State, op: Op): State {
    match op
    case Emit(e, nonce, writeOk) =>
      var (file, tip) := Emitted(c, st.v, st.file, st.tip, e, nonce, writeOk);
      State.State(st.v, file, tip)
    case Restart => Reopened(c, st.v, st.file, st.tip)
    case Rotate(newV, nonces, ioOk) =>
      var r := Rekeyed(c, st.v, newV, st.file, nonces);
      if r == None || !ioOk then Reopened(c, st.v, st.file, st.tip)
      else Reopened(c, newV, r.value, st.tip)
  }

  function Run(c: Codec, st: State, ops: seq<Op>): State
    decreases |ops|
  {
    if ops == [] then st else Run(c, Apply(c, st, ops[0]), ops[1..])
  }

  /** The events whose marshalling, random source and write all succeeded, in order. */
  function Writes(c: Codec, ops: seq<Op>): seq<Event> {
    if ops == [] then []
    else
      var op, rest := ops[0], Writes(c, ops[1..]);
      if op.Emit? && c.marshal(op.e) != None && op.nonce != None && op.writeOk then [op.e] + rest else rest
  }

  /** What the trail keeps of events: their normal forms. */
  function Normals(c: Codec, events: seq<Event>): seq<Event> {
    if events == [] then []
    else
      var ev := Normal(c, events[0]);
      (if ev == None then [] else [ev.value]) + Normals(c, events[1..])
  }

  function Recordings(c: Codec, ops: seq<Op>): seq<Event> {
    Normals(c, Writes(c, ops))
  }

  lemma {:induction false} NormalsConcat(c: Codec, x: seq<Event>, y: seq<Event>)
    ensures Normals(c, x + y) == Normals(c, x) + Normals(c, y)
  {
    hide Normal;
    if x == [] {
      assert x + y == y;
    } else {
      assert (x + y)[1..] == x[1..] + y;
      NormalsConcat(c, x[1..], y);
    }
  }

  /** Every written event is kept, and one that survives JSON is kept as it was. */
  lemma {:induction false} WritesKept(c: Codec, ops: seq<Op>)
    requires Lawful(c)
    ensures var w, r := Writes(c, ops), Recordings(c, ops);
            |r| == |w| && forall k :: 0 <= k < |w| ==> Normal(c, w[k]) == Some(r[k])
  {
    if ops != [] {
      WritesKept(c, ops[1..]);
    }
  }

  ghost predicate AllSound(ops: seq<Op>) {
    forall k :: 0 <= k < |ops| && ops[k].Rotate? ==> Sound(ops[k].newV)
  }

  /** The file holds exactly a chain of these events, after some white space, and memory holds its tip. */
  ghost predicate Inv(c: Codec, st: State, blank: seq<byte>, entries: seq<Entry>, events: seq<Event>) {
    && Sound(st.v) && Blank(blank) && Filled(entries) && Trail(c, st.v, entries, events)
    && st.file == blank + Content(c, entries) && st.tip == Prev(st.v, entries, |entries|)
  }

  lemma EmitInv(c: Codec, st: State, blank: seq<byte>, entries: seq<Entry>, events: seq<Event>, op: Op)
    returns (entries': seq<Entry>)
    requires Lawful(c) && Inv(c, st, blank, entries, events) && op.Emit?
    ensures Inv(c, Apply(c, st, op), blank, entries', events + Recordings(c, [op]))
  {
    entries' := entries;
    assert [op][1..] == [] && Writes(c, []) == [] && Normals(c, []) == [];
    if Recorded(c, op.e, op.nonce, op.writeOk) {
      var plain := c.marshal(op.e).value;
      var ev := c.unmarshal(plain).value;
      assert Writes(c, [op]) == [op.e] && Recordings(c, [op]) == [ev];
      hide Lawful, Trail, Sound, Seal, Content, LineText, Recordings, Blank, Prev, Filled;
      TrailGrows(c, st.v, entries, events, op.nonce.value, plain, ev);
      var ct := Seal(st.v, op.nonce.value, plain);
      var e := Entry(ct, Mac(st.v, st.tip, ct));
      ContentSnoc(c, entries, e);
      assert (blank + Content(c, entries)) + (LineText(c, e) + [LF]) == blank + Content(c, entries + [e]);
      entries' := entries + [e];
    } else {
      assert events + [] == events;
    }
  }

  lemma ReopenInv(c: Codec, v: Vault, blank: seq<byte>, entries: seq<Entry>, events: seq<Event>, tip: seq<byte>)
    requires Lawful(c) && Sound(v) && Blank(blank) && Filled(entries) && Trail(c, v, entries, events)
    ensures Inv(c, Reopened(c, v, blank + Content(c, entries), tip), blank, entries, events)
  {
    hide Lawful, Sound, Trail, ChainTip, Blank;
    TipRecovered(c, v, blank, entries);
  }

  /** What Rekey makes of a file does not depend on white space before its first line. */
  lemma BlankRekeyed(c: Codec, oldV: Vault, newV: Vault, blank: seq<byte>, data: seq<byte>, nonces: seq<Option<Nonce>>)
    requires Blank(blank)
    ensures Rekeyed(c, oldV, newV, blank + data, nonces) == Rekeyed(c, oldV, newV, data, nonces)
  {
    hide TrimSpace, FileRecords, Rechain, Content;
    BlankIgnored(blank, data);
  }

  lemma ApplyInv(c: Codec, st: State, blank: seq<byte>, entries: seq<Entry>, events: seq<Event>, op: Op)
    returns (blank': seq<byte>, entries': seq<Entry>)
    requires Lawful(c) && Inv(c, st, blank, entries, events) && (op.Rotate? ==> Sound(op.newV))
    ensures Inv(c, Apply(c, st, op), blank', entries', events + Recordings(c, [op])) && (blank == [] ==> blank' == [])
  {
    hide Lawful, Sound, Trail, Emitted, Reopened, Rekeyed, Filled, Blank;
    assert [op][1..] == [] && Writes(c, []) == [];
    assert events + [] == events;
    blank', entries' := blank, entries;
    match op
    case Emit(e, nonce, writeOk) =>
      hide Recordings;
      entries' := EmitInv(c, st, blank, entries, events, op);
    case Restart =>
      ReopenInv(c, st.v, blank, entries, events, st.tip);
    case Rotate(newV, nonces, ioOk) =>
      var renewed := RekeyPreserves(c, st.v, newV, entries, events, nonces);
      BlankRekeyed(c, st.v, newV, blank, Content(c, entries), nonces);
      if Rekeyed(c, st.v, newV, st.file, nonces) == None || !ioOk {
        ReopenInv(c, st.v, blank, entries, events, st.tip);
      } else {
        blank', entries' := [], renewed;
        NoBlank();
        assert [] + Content(c, renewed) == Content(c, renewed);
        ReopenInv(c, newV, [], renewed, events, st.tip);
      }
  }

  lemma NoBlank()
    ensures Blank([])
  {
    NothingTrims();
  }

  lemma {:induction false} RunInv(c: Codec, st: State, blank: seq<byte>, entries: seq<Entry>, events: seq<Event>, ops: seq<Op>)
    returns (blank': seq<byte>, entries': seq<Entry>)
    requires Lawful(c) && Inv(c, st, blank, entries, events) && AllSound(ops)
    ensures Inv(c, Run(c, st, ops), blank', entries', events + Recordings(c, ops)) && (blank == [] ==> blank' == [])
    decreases |ops|
  {
    hide Lawful, Inv, Apply, Sound, Recordings;
    if ops == [] {
      blank', entries' := blank, entries;
      assert Recordings(c, []) == [] by { RecordingsNone(c); }
      assert events + [] == events;
    } else {
      var op, rest := ops[0], ops[1..];
      assert op.Rotate? ==> Sound(op.newV);
      var b, mid := ApplyInv(c, st, blank, entries, events, op);
      assert forall k :: 0 <= k < |rest| ==> rest[k] == ops[k + 1];
      blank', entries' := RunInv(c, Apply(c, st, op), b, mid, events + Recordings(c, [op]), rest);
      RecordingsCons(c, op, rest);
      assert ops == [op] + rest;
      assert (events + Recordings(c, [op])) + Recordings(c, rest) == events + Recordings(c, ops);
    }
  }

  lemma RecordingsNone(c: Codec)
    ensures Recordings(c, []) == []
  {
  }

  lemma RecordingsCons(c: Codec, op: Op, rest: seq<Op>)
    ensures Recordings(c, [op] + rest) == Recordings(c, [op]) + Recordings(c, rest)
  {
    hide Normals;
    assert [op][1..] == [] && ([op] + rest)[1..] == rest;
    assert Writes(c, [op] + rest) == Writes(c, [op]) + Writes(c, rest);
    NormalsConcat(c, Writes(c, [op]), Writes(c, rest));
  }

  /** What the first `m` lines of a trail say, white space before it or not. */
  lemma LinesSay(c: Codec, blank: seq<byte>, entries: seq<Entry>, m: nat) returns (n: nat)
    requires Lawful(c) && Blank(blank) && Filled(entries)
    requires m <= |Split(blank + Content(c, entries), LF)|
    ensures n <= |entries|
    ensures var lines := Split(blank + Content(c, entries), LF);
            Records(c, lines[..m]) == AsRecords(entries[..n]) && (m == |lines| ==> n == |entries|)
  {
    hide Lawful, Split, Content, Records, Blank, Filled, TrimLeft;
    var lines := Split(blank + Content(c, entries), LF);
    BlankFromLeft(blank);
    BlankSkipped(c, blank, Content(c, entries));
    ContentReadsBack(c, entries);
    assert lines[..m] + lines[m..] == lines;
    RecordsConcat(c, lines[..m], lines[m..]);
    n := |Records(c, lines[..m])|;
    assert Records(c, lines[..m]) == AsRecords(entries)[..n] == AsRecords(entries[..n]);
    if m == |lines| {
      assert lines[..m] == lines;
    }
  }

  /** There is no file yet, or it holds a chain of these events, after some white space. */
  ghost predicate Honest(c: Codec, v: Vault, file: FileResult, blank: seq<byte>, entries: seq<Entry>, events: seq<Event>) {
    && Blank(blank) && Filled(entries) && Trail(c, v, entries, events)
    && match file
       case Absent => blank == [] && entries == []
       case Unreadable => false
       case Contents(data, err) => !err && data == blank + Content(c, entries)
  }

  lemma StartInv(c: Codec, v: Vault, file: FileResult, blank: seq<byte>, entries: seq<Entry>, events: seq<Event>)
    requires Lawful(c) && Sound(v) && Honest(c, v, file, blank, entries, events)
    ensures Opened(c, v, file) != None && Inv(c, Opened(c, v, file).value, blank, entries, events)
  {
    if file.Contents? {
      hide Lawful, Sound, Trail, ChainTip, Blank;
      TipRecovered(c, v, blank, entries);
    } else {
      assert [] + Content(c, []) == [];
    }
  }

  /** What the file and the memory of a running logger say: its events, or, if a line is too long, the first of
      them and an error; and the tip that a restart would recover. */
  lemma InvReads(c: Codec, st: State, blank: seq<byte>, entries: seq<Entry>, all: seq<Event>)
    requires Lawful(c) && Inv(c, st, blank, entries, all)
    ensures var lines := Split(st.file, LF);
            var verdict := ReadVerdict(c, st.v, Contents(st.file, false));
            && (verdict == Accepted(all) <==> Scannable(lines))
            && (verdict != Accepted(all) ==>
                  verdict.Unfinished? && verdict.events <= all && (blank == [] ==> verdict.events < all))
            && ChainTip(c, st.v, Contents(st.file, false)) == Some(st.tip)
  {
    hide Lawful, Sound, Trail, ChainTip, Blank, Verify, Filled, Split, Content, Scannable, Records, AsRecords;
    var lines := Split(st.file, LF);
    var m := Scanned(lines);
    ScannedWhole(lines);
    var n := LinesSay(c, blank, entries, m);
    TrailSize(c, st.v, entries, all);
    PrefixTrail(c, st.v, entries, all, n);
    VerifiesIff(c, st.v, entries[..n]);
    assert n == |entries| ==> all[..n] == all;
    TipRecovered(c, st.v, blank, entries);
    assert ReadVerdict(c, st.v, Contents(st.file, false)) == if m == |lines| then Accepted(all) else Unfinished(all[..n]);
    hide ReadVerdict;
    if blank == [] {
      assert [] + Content(c, entries) == Content(c, entries);
      var k := TrailReads(c, st.v, entries, all);
    }
  }

  /** Over every run from what a start leaves, be there no file, a blank one or an honest trail: the tip a
      restart would recover is the one in memory, and the file verifies under the current key and reads as
      exactly the events there were and those whose writes succeeded, in order and in their normal forms, if
      and only if no line is too long for the scanner; otherwise it reads as the first of them, and an error. */
  lemma RunVerifies(c: Codec, v: Vault, file: FileResult, blank: seq<byte>, entries: seq<Entry>, events: seq<Event>,
                    ops: seq<Op>)
    requires Lawful(c) && Sound(v) && AllSound(ops) && Honest(c, v, file, blank, entries, events)
    ensures file.Absent? ==> ReadVerdict(c, v, file) == Accepted([])
    ensures Opened(c, v, file) != None
    ensures var st := Run(c, Opened(c, v, file).value, ops);
            var all := events + Recordings(c, ops);
            var lines := Split(st.file, 0x0A);
            var verdict := ReadVerdict(c, st.v, Contents(st.file, false));
            && (verdict == Accepted(all) <==> forall k :: 0 <= k < |lines| ==> |lines[k]| < 8388608)
            && (verdict != Accepted(all) ==>
                  verdict.Unfinished? && verdict.events <= all && (blank == [] ==> verdict.events < all))
            && ChainTip(c, st.v, Contents(st.file, false)) == Some(st.tip)
  {
    StartInv(c, v, file, blank, entries, events);
    var start := Opened(c, v, file).value;
    var b, es := RunInv(c, start, blank, entries, events, ops);
    assert LINE_MAX == 8388608;
    hide Inv, Honest, Lawful, Sound, ChainTip, Opened, Run, Recordings, ReadVerdict, Split, LINE_MAX;
    InvReads(c, Run(c, start, ops), b, es, events + Recordings(c, ops));
  }
}
