/** Which files the audit trail accepts: chains, and of an honest chain's entries just its prefixes. */
module AuditTrail {
  import opened Bytes
  import opened Text
  import opened Vaults
  import opened Audit

  // ---------------------------------------------------------------------------
  // Chains
  // ---------------------------------------------------------------------------

  /** What entry `k` commits to: the previous entry's MAC, or the genesis MAC. */
  function Prev(v: Vault, entries: seq<Entry>, k: nat): seq<byte>
    requires k <= |entries|
  {
    if k == 0 then Mac(v, [], GENESIS) else entries[k - 1].mac
  }

  /** The message of entry `k`'s MAC. */
  function Input(v: Vault, entries: seq<Entry>, k: nat): seq<byte>
    requires k < |entries|
  {
    Prev(v, entries, k) + entries[k].ct
  }

  predicate Linked(v: Vault, entries: seq<Entry>, k: nat)
    requires k < |entries|
  {
    entries[k].mac == v.hmac(Input(v, entries, k))
  }

  /** Entry `k` is chained to its predecessor and opens to `ev`. */
  predicate Good(c: Codec, v: Vault, entries: seq<Entry>, k: nat, ev: Event)
    requires k < |entries|
  {
    && Linked(v, entries, k)
    && Open(v, entries[k].ct) != None
    && c.unmarshal(Open(v, entries[k].ct).value) == Some(ev)
  }

  /** The entries are a chain, and open to these events. */
  ghost predicate Trail(c: Codec, v: Vault, entries: seq<Entry>, events: seq<Event>) {
    && |entries| == |events|
    && forall k :: 0 <= k < |entries| ==> Good(c, v, entries, k, events[k])
  }

  function AsRecords(entries: seq<Entry>): (r: seq<Option<Entry>>)
    ensures |r| == |entries| && forall k :: 0 <= k < |r| ==> r[k] == Some(entries[k])
  {
    seq(|entries|, k requires 0 <= k < |entries| => Some(entries[k]))
  }

  /** One step of verification, from entry `n` on. */
  lemma VerifyEntry(c: Codec, v: Vault, entries: seq<Entry>, n: nat, events: seq<Event>)
    requires n < |entries|
    ensures Verify(c, v, Prev(v, entries, n), AsRecords(entries)[n..], events) ==
            var plain := Open(v, entries[n].ct);
            if !Linked(v, entries, n) || plain == None then Broken(events)
            else
              var ev := c.unmarshal(plain.value);
              if ev == None then Malformed
              else Verify(c, v, Prev(v, entries, n + 1), AsRecords(entries)[n + 1..], events + [ev.value])
  {
    hide Open, Verify;
    var records := AsRecords(entries);
    assert records[n..] == [Some(entries[n])] + records[n + 1..];
    VerifyStep(c, v, Prev(v, entries, n), Some(entries[n]), records[n + 1..], events);
  }

  lemma {:induction false} TrailAccepted(c: Codec, v: Vault, entries: seq<Entry>, events: seq<Event>, n: nat)
    requires n <= |entries| && Trail(c, v, entries, events)
    ensures Verify(c, v, Prev(v, entries, n), AsRecords(entries)[n..], events[..n]) == Accepted(events)
    decreases |entries| - n
  {
    hide Open, Linked;
    if n == |entries| {
      assert events[..n] == events;
    } else {
      assert Good(c, v, entries, n, events[n]);
      VerifyEntry(c, v, entries, n, events[..n]);
      assert events[..n] + [events[n]] == events[..n + 1];
      hide Verify;
      TrailAccepted(c, v, entries, events, n + 1);
    }
  }

  lemma {:induction false} AcceptedTrail(c: Codec, v: Vault, entries: seq<Entry>, n: nat, events: seq<Event>)
    requires n == |events| <= |entries|
    requires forall k :: 0 <= k < n ==> Good(c, v, entries, k, events[k])
    requires Verify(c, v, Prev(v, entries, n), AsRecords(entries)[n..], events).Accepted?
    ensures Trail(c, v, entries, Verify(c, v, Prev(v, entries, n), AsRecords(entries)[n..], events).events)
    decreases |entries| - n
  {
    hide Open, Linked;
    if n < |entries| {
      VerifyEntry(c, v, entries, n, events);
      hide Verify;
      var ev := c.unmarshal(Open(v, entries[n].ct).value).value;
      var more := events + [ev];
      forall k | 0 <= k < n + 1 ensures Good(c, v, entries, k, more[k]) {
        if k < n {
          assert Good(c, v, entries, k, events[k]);
        }
      }
      AcceptedTrail(c, v, entries, n + 1, more);
    }
  }

  /** A list of entries verifies exactly when it is a chain whose entries open, and then the verdict lists
      what they open to. */
  lemma VerifiesIff(c: Codec, v: Vault, entries: seq<Entry>)
    ensures var verdict := Verify(c, v, Mac(v, [], GENESIS), AsRecords(entries), []);
            && (verdict.Accepted? ==> Trail(c, v, entries, verdict.events))
            && forall events :: Trail(c, v, entries, events) ==> verdict == Accepted(events)
  {
    assert AsRecords(entries)[0..] == AsRecords(entries);
    hide Verify;
    if Verify(c, v, Mac(v, [], GENESIS), AsRecords(entries), []).Accepted? {
      AcceptedTrail(c, v, entries, 0, []);
    }
    forall events | Trail(c, v, entries, events)
      ensures Verify(c, v, Mac(v, [], GENESIS), AsRecords(entries), []) == Accepted(events)
    {
      TrailAccepted(c, v, entries, events, 0);
    }
  }

  // ---------------------------------------------------------------------------
  // Lines, and what is reported of a file that is not a chain
  // ---------------------------------------------------------------------------

  /** A line splits at its first dot, with something before it. */
  ghost predicate SplitsInto(line: seq<byte>, x: seq<byte>, y: seq<byte>) {
    x != [] && 0x2E !in x && line == x + [0x2E] + y
  }

  lemma IndexOfLeast(line: seq<byte>, x: seq<byte>, y: seq<byte>)
    requires SplitsInto(line, x, y)
    ensures IndexOf(line, DOT) == |x| && line[..|x|] == x && line[|x| + 1..] == y
  {
    IndexOfFirst(x, DOT, y);
  }

  /** Which lines are well formed, and what they say. */
  lemma ParseLineExactly(c: Codec, line: seq<byte>, e: Entry)
    ensures ParseLine(c, line) == Some(e) <==>
            exists x, y :: SplitsInto(line, x, y) && c.dec(x) == Some(e.ct) && c.dec(y) == Some(e.mac)
  {
    var i := IndexOf(line, DOT);
    if ParseLine(c, line) == Some(e) {
      assert DOT !in line[..i];
      assert SplitsInto(line, line[..i], line[i + 1..]);
    }
    hide IndexOf;
    forall x, y | SplitsInto(line, x, y) && c.dec(x) == Some(e.ct) && c.dec(y) == Some(e.mac)
      ensures ParseLine(c, line) == Some(e)
    {
      IndexOfLeast(line, x, y);
    }
  }

  /** The verdict on a file whose lines say `records`, by the first of them that is at fault: one that is
      malformed, or holds no event under its seal, has the file refused without events; one that is not chained
      or does not open ends the events before it with a broken chain. */
  lemma {:induction false} FirstFault(c: Codec, v: Vault, records: seq<Option<Entry>>)
    returns (good: seq<Entry>, events: seq<Event>)
    ensures |good| <= |records| && records[..|good|] == AsRecords(good) && Trail(c, v, good, events)
    ensures var verdict := Verify(c, v, Mac(v, [], GENESIS), records, []);
            var n := |good|;
            if n == |records| then verdict == Accepted(events)
            else if records[n] == None then verdict == Malformed
            else
              var e := records[n].value;
              if e.mac != v.hmac(Prev(v, good, n) + e.ct) || Open(v, e.ct) == None then verdict == Broken(events)
              else c.unmarshal(Open(v, e.ct).value) == None && verdict == Malformed
  {
    good, events := FaultFrom(c, v, records, [], []);
  }

  /** What `FirstFault` says, of a file whose first entries are good. */
  lemma {:induction false} FaultFrom(c: Codec, v: Vault, records: seq<Option<Entry>>, done: seq<Entry>, found: seq<Event>)
    returns (good: seq<Entry>, events: seq<Event>)
    requires |done| <= |records| && records[..|done|] == AsRecords(done) && Trail(c, v, done, found)
    ensures |good| <= |records| && records[..|good|] == AsRecords(good) && Trail(c, v, good, events)
    ensures var verdict := Verify(c, v, Prev(v, done, |done|), records[|done|..], found);
            var n := |good|;
            if n == |records| then verdict == Accepted(events)
            else if records[n] == None then verdict == Malformed
            else
              var e := records[n].value;
              if e.mac != v.hmac(Prev(v, good, n) + e.ct) || Open(v, e.ct) == None then verdict == Broken(events)
              else c.unmarshal(Open(v, e.ct).value) == None && verdict == Malformed
    decreases |records| - |done|
  {
    hide Open;
    good, events := done, found;
    var n := |done|;
    if n < |records| {
      assert records[n..] == [records[n]] + records[n + 1..];
      VerifyStep(c, v, Prev(v, done, n), records[n], records[n + 1..], found);
      hide Verify;
      if records[n] != None {
        var e := records[n].value;
        if e.mac == v.hmac(Prev(v, done, n) + e.ct) && Open(v, e.ct) != None
           && c.unmarshal(Open(v, e.ct).value) != None {
          var ev := c.unmarshal(Open(v, e.ct).value).value;
          GoodGrows(c, v, done, found, e, ev);
          assert records[..n + 1] == AsRecords(done + [e]);
          good, events := FaultFrom(c, v, records, done + [e], found + [ev]);
        }
      }
    }
  }

  lemma GoodGrows(c: Codec, v: Vault, entries: seq<Entry>, events: seq<Event>, e: Entry, ev: Event)
    requires Trail(c, v, entries, events) && e.mac == v.hmac(Prev(v, entries, |entries|) + e.ct)
    requires Open(v, e.ct) != None && c.unmarshal(Open(v, e.ct).value) == Some(ev)
    ensures Trail(c, v, entries + [e], events + [ev])
  {
    hide Open;
    var more := entries + [e];
    forall k | 0 <= k < |more| ensures Good(c, v, more, k, (events + [ev])[k]) {
      assert Prev(v, more, k) == Prev(v, entries, k);
      if k < |entries| {
        assert Good(c, v, entries, k, events[k]);
      }
    }
  }

  // ---------------------------------------------------------------------------
  // Tampering
  // ---------------------------------------------------------------------------

  function Inputs(v: Vault, entries: seq<Entry>): set<seq<byte>> {
    set k | 0 <= k < |entries| :: Input(v, entries, k)
  }

  /** Among these messages, no two share a MAC. */
  ghost predicate NoCollision(v: Vault, messages: set<seq<byte>>) {
    forall x, y :: x in messages && y in messages && v.hmac(x) == v.hmac(y) ==> x == y
  }

  /** Every MAC in `entries` is one that the chain `issued` contains. */
  ghost predicate Issued(entries: seq<Entry>, issued: seq<Entry>) {
    forall k :: 0 <= k < |entries| ==> exists j :: 0 <= j < |issued| && issued[j].mac == entries[k].mac
  }

  lemma PrevSize(v: Vault, entries: seq<Entry>, k: nat)
    requires Sound(v) && k <= |entries|
    requires forall j :: 0 <= j < |entries| ==> Linked(v, entries, j)
    ensures |Prev(v, entries, k)| == MAC_SIZE
  {
    if k > 0 {
      assert Linked(v, entries, k - 1);
    }
  }

  lemma SplitInput(p: seq<byte>, x: seq<byte>, q: seq<byte>, y: seq<byte>)
    requires p + x == q + y && |p| == |q|
    ensures p == q && x == y
  {
    assert p == (p + x)[..|p|] && q == (q + y)[..|q|];
    assert x == (p + x)[|p|..] && y == (q + y)[|q|..];
  }

  /** No two places of an honest chain commit to the same predecessor; the chain cannot come back to its
      start, because a 32-byte MAC followed by a ciphertext is never the 27-byte genesis message. */
  lemma {:induction false} PrevDistinct(v: Vault, h: seq<Entry>, a: nat, b: nat)
    requires Sound(v) && (forall j :: 0 <= j < |h| ==> Linked(v, h, j))
    requires NoCollision(v, {GENESIS} + Inputs(v, h))
    requires a < b <= |h|
    ensures Prev(v, h, a) != Prev(v, h, b)
  {
    assert Linked(v, h, b - 1);
    assert Input(v, h, b - 1) in Inputs(v, h);
    PrevSize(v, h, b - 1);
    if a == 0 {
      assert [] + GENESIS == GENESIS;
      assert |Input(v, h, b - 1)| >= MAC_SIZE > |GENESIS|;
    } else {
      assert Linked(v, h, a - 1);
      assert Input(v, h, a - 1) in Inputs(v, h);
      PrevSize(v, h, a - 1);
      PrevDistinct(v, h, a - 1, b - 1);
      if Input(v, h, a - 1) == Input(v, h, b - 1) {
        SplitInput(Prev(v, h, a - 1), h[a - 1].ct, Prev(v, h, b - 1), h[b - 1].ct);
      }
    }
  }

  lemma SameCommitment(v: Vault, f: seq<Entry>, k: nat, h: seq<Entry>, j: nat)
    requires Sound(v) && k < |f| && j < |h|
    requires forall i :: 0 <= i < |f| ==> Linked(v, f, i)
    requires forall i :: 0 <= i < |h| ==> Linked(v, h, i)
    requires f[k].mac == h[j].mac
    requires NoCollision(v, Inputs(v, h) + Inputs(v, f))
    ensures Prev(v, f, k) == Prev(v, h, j) && f[k].ct == h[j].ct
  {
    assert Linked(v, f, k) && Linked(v, h, j);
    assert Input(v, f, k) in Inputs(v, f) && Input(v, h, j) in Inputs(v, h);
    PrevSize(v, f, k);
    PrevSize(v, h, j);
    SplitInput(Prev(v, f, k), f[k].ct, Prev(v, h, j), h[j].ct);
  }

  /** A chained file all of whose MACs the honest chain issued agrees with it entry by entry. */
  lemma {:induction false} ChainIsPrefix(v: Vault, f: seq<Entry>, h: seq<Entry>, n: nat)
    requires Sound(v) && n <= |f|
    requires forall j :: 0 <= j < |f| ==> Linked(v, f, j)
    requires forall j :: 0 <= j < |h| ==> Linked(v, h, j)
    requires Issued(f, h)
    requires NoCollision(v, {GENESIS} + Inputs(v, h)) && NoCollision(v, Inputs(v, h) + Inputs(v, f))
    ensures n <= |h| && f[..n] == h[..n]
  {
    hide Linked, NoCollision, Inputs, Prev, Sound;
    if n > 0 {
      var k := n - 1;
      ChainIsPrefix(v, f, h, k);
      var j :| 0 <= j < |h| && h[j].mac == f[k].mac;
      SameCommitment(v, f, k, h, j);
      SamePrev(v, f, h, k);
      if j < k {
        PrevDistinct(v, h, j, k);
      } else if k < j {
        PrevDistinct(v, h, k, j);
      }
      assert f[..n] == f[..k] + [f[k]] && h[..n] == h[..k] + [h[k]];
    }
  }

  lemma SamePrev(v: Vault, f: seq<Entry>, h: seq<Entry>, k: nat)
    requires k <= |f| && k <= |h| && f[..k] == h[..k]
    ensures Prev(v, f, k) == Prev(v, h, k)
  {
    if k > 0 {
      assert f[..k][k - 1] == h[..k][k - 1];
    }
  }

  lemma PrefixTrail(c: Codec, v: Vault, h: seq<Entry>, events: seq<Event>, n: nat)
    requires Trail(c, v, h, events) && n <= |h|
    ensures Trail(c, v, h[..n], events[..n])
  {
    forall k | 0 <= k < n ensures Good(c, v, h[..n], k, events[..n][k]) {
      assert Good(c, v, h, k, events[k]);
      assert Prev(v, h[..n], k) == Prev(v, h, k);
    }
  }

  ghost predicate WellFormed(records: seq<Option<Entry>>) {
    forall k :: 0 <= k < |records| ==> records[k] != None
  }

  function Entries(records: seq<Option<Entry>>): (entries: seq<Entry>)
    requires WellFormed(records)
    ensures AsRecords(entries) == records
  {
    seq(|records|, k requires 0 <= k < |records| => records[k].value)
  }

  lemma {:induction false} MalformedRejected(c: Codec, v: Vault, prev: seq<byte>, records: seq<Option<Entry>>, events: seq<Event>)
    requires Verify(c, v, prev, records, events).Accepted?
    ensures WellFormed(records)
    decreases |records|
  {
    hide Open, Mac;
    if records != [] {
      var e := records[0].value;
      var ev := c.unmarshal(Open(v, e.ct).value).value;
      MalformedRejected(c, v, e.mac, records[1..], events + [ev]);
      forall k | 0 <= k < |records| ensures records[k] != None {
        if k > 0 {
          assert records[1..][k - 1] != None;
        }
      }
    }
  }

  /** Tamper evidence. Let `h` be an honest chain and `data` any file all of whose MACs the chain issued,
      with no collision among the messages in play. If the scanner gets through it, it is accepted exactly
      when its entries are a prefix of the chain's, and then it reads as that prefix: every change,
      insertion, interior deletion and reordering of entries is refused, and a truncated trail is not. */
  lemma TamperEvident(c: Codec, v: Vault, h: seq<Entry>, events: seq<Event>, data: seq<byte>)
    requires Sound(v) && Trail(c, v, h, events)
    requires NoCollision(v, {GENESIS} + Inputs(v, h))
    requires var r := FileRecords(c, data);
             WellFormed(r) ==> Issued(Entries(r), h) && NoCollision(v, Inputs(v, h) + Inputs(v, Entries(r)))
    ensures var r := FileRecords(c, data);
            var verdict := ReadVerdict(c, v, Contents(data, false));
            && (verdict.Accepted? <==>
                Scannable(Split(data, LF)) && exists n :: 0 <= n <= |h| && r == AsRecords(h[..n]))
            && (Scannable(Split(data, LF)) ==>
                  forall n :: 0 <= n <= |h| && r == AsRecords(h[..n]) ==> verdict == Accepted(events[..n]))
  {
    hide Records, Split, Verify, NoCollision, Sound;
    var r := FileRecords(c, data);
    var verdict := Verify(c, v, Mac(v, [], GENESIS), r, []);
    ScannedWhole(Split(data, LF));
    forall n | 0 <= n <= |h| && r == AsRecords(h[..n])
      ensures verdict == Accepted(events[..n])
    {
      PrefixTrail(c, v, h, events, n);
      VerifiesIff(c, v, h[..n]);
    }
    if verdict.Accepted? {
      MalformedRejected(c, v, Mac(v, [], GENESIS), r, []);
      var f := Entries(r);
      VerifiesIff(c, v, f);
      TrailLinked(c, v, f, verdict.events);
      TrailLinked(c, v, h, events);
      ChainIsPrefix(v, f, h, |f|);
      assert f[..|f|] == f;
      assert r == AsRecords(h[..|f|]);
    }
  }

  lemma ScannedWhole(lines: seq<seq<byte>>)
    ensures Scanned(lines) == |lines| <==> Scannable(lines)
    ensures Scanned(lines) == |lines| ==> lines[..Scanned(lines)] == lines
  {
    var n := Scanned(lines);
    if n == |lines| {
      assert lines[..n] == lines;
    }
  }

  lemma TrailLinked(c: Codec, v: Vault, entries: seq<Entry>, events: seq<Event>)
    requires Trail(c, v, entries, events)
    ensures forall j :: 0 <= j < |entries| ==> Linked(v, entries, j)
  {
    forall j | 0 <= j < |entries| ensures Linked(v, entries, j) {
      assert Good(c, v, entries, j, events[j]);
    }
  }
}
