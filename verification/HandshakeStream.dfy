/** What the peek does to a door's stream, over every way the stream can arrive. */
module HandshakeStream {
  import opened Bytes
  import opened Text
  import opened Wires
  import opened Handshake

  /** No read brings more than the peek's buffer holds. */
  ghost predicate Fitting(raw: seq<RawRead>) {
    forall k :: 0 <= k < |raw| ==> |raw[k].bytes| <= SENTINEL_MAX
  }

  /** Where a complete leading sentinel ends: the index of its BEL. */
  function SentinelEnd(s: seq<byte>): (end: Option<nat>)
    ensures end != None ==> |PREFIX| <= end.value < |s|
  {
    match Look(s)
    case Complete(i) =>
        Some(i)
    case _ => None
  }

  /** A complete leading sentinel is ESC ]ABBS; with a payload free of BEL, and then BEL. */
  ghost predicate Leads(s: seq<byte>, payload: seq<byte>, game: seq<byte>) {
    0x07 !in payload && s == [0x1B, 0x5D, 0x41, 0x42, 0x42, 0x53, 0x3B] + payload + [0x07] + game
  }

  lemma SentinelExactly(s: seq<byte>, end: nat)
    ensures SentinelEnd(s) == Some(end) <==>
            exists payload, game :: Leads(s, payload, game) && end == 7 + |payload|
  {
    if SentinelEnd(s) == Some(end) {
      assert s == s[..7] + s[7..end] + [s[end]] + s[end + 1..];
      assert s[..7] == PREFIX;
      assert Leads(s, s[7..end], s[end + 1..]);
    }
    hide IndexOf;
    forall payload, game | Leads(s, payload, game) && end == 7 + |payload| ensures SentinelEnd(s) == Some(end) {
      var head := PREFIX + payload;
      assert BEL !in head by {
        assert BEL !in PREFIX;
      }
      assert s == head + [BEL] + game;
      IndexOfFirst(head, BEL, game);
      assert PREFIX <= s;
    }
  }

  /** More of a stream cannot change what a complete sentinel or a divergence was. */
  lemma LookExtends(buf: seq<byte>, more: seq<byte>)
    ensures Look(buf).Complete? ==> Look(buf + more) == Look(buf)
    ensures Look(buf).Diverged? ==> Look(buf + more) == Diverged
  {
    var s := buf + more;
    if PREFIX <= buf {
      assert PREFIX <= s;
      if IndexOf(buf, BEL) < |buf| {
        IndexExtends(buf, more, BEL);
      }
    } else if Look(buf).Diverged? {
      if PREFIX <= s {
        PrefixesCompare(PREFIX, buf, s);
      }
    }
  }

  lemma PrefixesCompare(x: seq<byte>, y: seq<byte>, s: seq<byte>)
    requires x <= s && y <= s
    ensures x <= y || y <= x
  {
    assert x == s[..|x|] && y == s[..|y|];
    if |x| <= |y| {
      assert y[..|x|] == x;
    } else {
      assert x[..|y|] == y;
    }
  }

  lemma {:induction false} IndexExtends(x: seq<byte>, y: seq<byte>, b: byte)
    requires IndexOf(x, b) < |x|
    ensures IndexOf(x + y, b) == IndexOf(x, b)
  {
    if x[0] != b {
      assert (x + y)[1..] == x[1..] + y;
      IndexExtends(x[1..], y, b);
    }
  }

  // ---------------------------------------------------------------------------
  // Transparency
  // ---------------------------------------------------------------------------

  /** For every cutting of the stream and every timeout: the caller gets the whole stream, or the stream
      minus one complete leading sentinel, which is then the one that was parsed; and the peek never
      holds more than 511 bytes. */
  lemma {:induction false} Transparent(buf: seq<byte>, raw: seq<RawRead>)
    requires Fitting(raw) && |buf| <= 2 * SENTINEL_MAX - 1
    ensures var s := buf + Flatten(raw);
            var o := Peek(buf, raw);
            && |o.pre| <= 511
            && if o.stripped then
                 && SentinelEnd(s) != None
                 && var i := SentinelEnd(s).value;
                    && |PREFIX| <= i < 511
                    && Delivered(o) == s[i + 1..]
                    && o.advert == ParsePayload(s[|PREFIX|..i])
               else Delivered(o) == s && o.advert == SILENT
    decreases |raw|
  {
    hide ParsePayload, Look, IndexOf;
    if |buf| < SENTINEL_MAX && raw != [] {
      var buf', rest := buf + raw[0].bytes, raw[1..];
      var s := buf + Flatten(raw);
      assert s == buf' + Flatten(rest);
      var view := if raw[0].bytes == [] then Partial else Look(buf');
      if view.Complete? {
        var i := view.bel;
        PrefixHasNoBel(buf', i);
        LookExtends(buf', Flatten(rest));
        assert s[i + 1..] == buf'[i + 1..] + Flatten(rest);
        assert s[|PREFIX|..i] == buf'[|PREFIX|..i];
      } else if !view.Diverged? && !raw[0].err {
        Transparent(buf', rest);
      }
    }
  }

  // ---------------------------------------------------------------------------
  // When the peek stops
  // ---------------------------------------------------------------------------

  /** After `n` reads, that are not too many: before the last of them the peek had less than 256 bytes, which might
      have been the beginning of a sentinel, and no error. */
  ghost predicate Waits(buf: seq<byte>, raw: seq<RawRead>, n: nat) {
    && n <= |raw|
    && forall k {:trigger raw[..k]} :: 0 <= k < n ==>
         var got := buf + Flatten(raw[..k]);
         |got| < 256 && Look(got) == Partial && (k > 0 ==> !raw[k - 1].err)
  }

  /** The peek stops after `n` reads with `got`: a complete sentinel, which it takes out, or one of the four reasons
      to hand everything on. */
  ghost predicate Stops(got: seq<byte>, raw: seq<RawRead>, n: nat, o: Outcome)
    requires n <= |raw|
  {
    && o.rest == raw[n..]
    && match Look(got)
       case Complete(i) =>
         7 <= i < |got| && o == Outcome(true, ParsePayload(got[7..i]), got[i + 1..], raw[n..])
       case Diverged => o == Outcome(false, Advert([], {}), got, raw[n..])
       case Partial =>
         && o == Outcome(false, Advert([], {}), got, raw[n..])
         && (n == |raw| || |got| >= 256 || (n > 0 && raw[n - 1].err))
  }

  /** When the peek stops, and with what. */
  lemma {:induction false} PeekExactly(buf: seq<byte>, raw: seq<RawRead>) returns (n: nat)
    requires Look(buf) == Partial
    ensures n <= |raw| && Waits(buf, raw, n) && Stops(buf + Flatten(raw[..n]), raw, n, Peek(buf, raw))
    decreases |raw|
  {
    hide Look, ParsePayload, Waits, Stops;
    if |buf| >= SENTINEL_MAX || raw == [] {
      n := 0;
      StopsNow(buf, raw);
    } else {
      var buf', rest := buf + raw[0].bytes, raw[1..];
      assert raw[0].bytes == [] ==> buf' == buf;
      if Look(buf') == Partial && !raw[0].err {
        var m := PeekExactly(buf', rest);
        n := m + 1;
        WaitsOn(buf, raw, m);
        assert raw[..n] == [raw[0]] + rest[..m];
        assert buf + Flatten(raw[..n]) == buf' + Flatten(rest[..m]);
        StopsLater(buf' + Flatten(rest[..m]), raw, m, Peek(buf, raw));
      } else {
        n := 1;
        StopsAfterOne(buf, raw);
      }
    }
  }

  lemma StopsNow(buf: seq<byte>, raw: seq<RawRead>)
    requires Look(buf) == Partial && (|buf| >= SENTINEL_MAX || raw == [])
    ensures Waits(buf, raw, 0) && Stops(buf + Flatten(raw[..0]), raw, 0, Peek(buf, raw))
  {
    hide Look;
    assert raw[..0] == [] && raw[0..] == raw && buf + [] == buf;
  }

  lemma StopsAfterOne(buf: seq<byte>, raw: seq<RawRead>)
    requires Look(buf) == Partial && |buf| < SENTINEL_MAX && raw != []
    requires Look(buf + raw[0].bytes) != Partial || raw[0].err
    ensures Waits(buf, raw, 1) && Stops(buf + Flatten(raw[..1]), raw, 1, Peek(buf, raw))
  {
    hide Look, ParsePayload;
    assert raw[..0] == [] && raw[..1] == [raw[0]] && [raw[0]][1..] == [] && buf + [] == buf;
    var buf' := buf + raw[0].bytes;
    assert Flatten(raw[..1]) == raw[0].bytes + [] == raw[0].bytes;
    assert raw[0].bytes == [] ==> buf' == buf;
    if Look(buf').Complete? {
      PrefixHasNoBel(buf', Look(buf').bel);
    }
  }

  lemma WaitsOn(buf: seq<byte>, raw: seq<RawRead>, m: nat)
    requires raw != [] && Look(buf) == Partial && |buf| < SENTINEL_MAX && !raw[0].err
    requires Waits(buf + raw[0].bytes, raw[1..], m)
    ensures Waits(buf, raw, m + 1)
  {
    hide Look;
    var rest := raw[1..];
    forall k {:trigger raw[..k]} | 0 <= k < m + 1
      ensures var got := buf + Flatten(raw[..k]);
              |got| < 256 && Look(got) == Partial && (k > 0 ==> !raw[k - 1].err)
    {
      if k == 0 {
        assert raw[..0] == [] && buf + [] == buf;
      } else {
        assert raw[..k] == [raw[0]] + rest[..k - 1];
        assert buf + Flatten(raw[..k]) == (buf + raw[0].bytes) + Flatten(rest[..k - 1]);
        assert k > 1 ==> raw[k - 1] == rest[k - 2];
      }
    }
  }

  lemma StopsLater(got: seq<byte>, raw: seq<RawRead>, m: nat, o: Outcome)
    requires raw != [] && m < |raw| && Stops(got, raw[1..], m, o)
    ensures Stops(got, raw, m + 1, o)
  {
    hide Look, ParsePayload;
    assert raw[1..][m..] == raw[m + 1..];
    assert m > 0 ==> raw[1..][m - 1] == raw[m];
  }

  // ---------------------------------------------------------------------------
  // Chunk independence
  // ---------------------------------------------------------------------------

  ghost predicate NoEarlyError(raw: seq<RawRead>) {
    forall k {:trigger raw[k]} :: 0 <= k < |raw| && raw[k].err ==> Flatten(raw[k + 1..]) == []
  }

  /** The stream `s` arriving in pieces, with no error before all of it is there. */
  ghost predicate Arrives(s: seq<byte>, raw: seq<RawRead>) {
    Flatten(raw) == s && Fitting(raw) && NoEarlyError(raw)
  }

  datatype Result = Result(stripped: bool, advert: Advert, delivered: seq<byte>)

  function ResultOf(raw: seq<RawRead>): Result {
    var o := Peek([], raw);
    Result(o.stripped, o.advert, Delivered(o))
  }

  /** The sentinel's BEL comes early enough for every cutting, or too late for any, or there is none. */
  predicate Settled(s: seq<byte>) {
    var end := SentinelEnd(s);
    end == None || end.value < SENTINEL_MAX || end.value >= 2 * SENTINEL_MAX - 1
  }

  /** With the BEL among the first 256 bytes the sentinel is always found. */
  lemma {:induction false} EarlyFound(s: seq<byte>, buf: seq<byte>, raw: seq<RawRead>)
    requires SentinelEnd(s) != None && SentinelEnd(s).value < SENTINEL_MAX
    requires s == buf + Flatten(raw) && !Look(buf).Complete?
    requires NoEarlyError(raw)
    ensures Peek(buf, raw).stripped
    decreases |raw|
  {
    var i := SentinelEnd(s).value;
    EarlyWaits(s, buf, Flatten(raw));
    assert raw != [];
    var buf', rest := buf + raw[0].bytes, raw[1..];
    assert s == buf' + Flatten(rest);
    if raw[0].bytes == [] {
      assert buf' == buf;
    }
    if !Look(buf').Complete? {
      assert raw[0].err ==> Flatten(rest) == [];
      EarlyWaits(s, buf', Flatten(rest));
      forall k {:trigger rest[k]} | 0 <= k < |rest| && rest[k].err ensures Flatten(rest[k + 1..]) == [] {
        assert rest[k] == raw[k + 1] && rest[k + 1..] == raw[k + 2..];
      }
      EarlyFound(s, buf', rest);
    }
  }

  lemma EarlyWaits(s: seq<byte>, buf: seq<byte>, more: seq<byte>)
    requires SentinelEnd(s) != None && s == buf + more && !Look(buf).Complete?
    ensures Look(buf) == Partial && |buf| <= SentinelEnd(s).value && more != []
  {
    LookExtends(buf, more);
    var i := SentinelEnd(s).value;
    if |buf| > i {
      assert s[i] == BEL && buf[i] == BEL;
      PrefixesCompare(PREFIX, buf, s);
    }
  }

  /** The stream cut into full buffers. */
  function Pieces(s: seq<byte>): (raw: seq<RawRead>)
    ensures Flatten(raw) == s && Fitting(raw)
    ensures forall k :: 0 <= k < |raw| ==> !raw[k].err
  {
    if |s| <= SENTINEL_MAX then
      assert Flatten([RawRead(s, false)][1..]) == [];
      [RawRead(s, false)]
    else
      var rest := Pieces(s[SENTINEL_MAX..]);
      assert s == s[..SENTINEL_MAX] + s[SENTINEL_MAX..];
      [RawRead(s[..SENTINEL_MAX], false)] + rest
  }

  /** First a piece of `n` bytes, then full buffers. */
  function CutAt(s: seq<byte>, n: nat): seq<RawRead>
    requires n <= |s|
  {
    [RawRead(s[..n], false)] + Pieces(s[n..])
  }

  lemma CutArrives(s: seq<byte>, n: nat)
    requires n <= |s| && n <= SENTINEL_MAX
    ensures Arrives(s, CutAt(s, n))
  {
    assert CutAt(s, n)[1..] == Pieces(s[n..]);
    assert s == s[..n] + s[n..];
  }

  /** A BEL at index 256 to 510 is missed if the first read fills the buffer exactly ... */
  lemma LateMissed(s: seq<byte>)
    requires SentinelEnd(s) != None && SENTINEL_MAX <= SentinelEnd(s).value
    ensures !Peek([], CutAt(s, SENTINEL_MAX)).stripped
  {
    var raw := CutAt(s, SENTINEL_MAX);
    var buf := s[..SENTINEL_MAX];
    assert [] + raw[0].bytes == buf;
    NotYet(s, SENTINEL_MAX);
  }

  /** ... and found if it brings one byte less. */
  lemma LateFound(s: seq<byte>)
    requires SentinelEnd(s) != None && SENTINEL_MAX <= SentinelEnd(s).value < 2 * SENTINEL_MAX - 1
    ensures Peek([], CutAt(s, SENTINEL_MAX - 1)).stripped
  {
    hide Look, SentinelEnd, Peek, IndexOf, Pieces;
    var n := SENTINEL_MAX - 1;
    NotYet(s, n);
    var y, more := FirstPiece(s[n..]);
    assert s[..n] + y == s[..n + |y|];
    NowComplete(s, n + |y|);
    PeekTwice(s[..n], y, more);
    assert CutAt(s, n) == [RawRead(s[..n], false), RawRead(y, false)] + more;
  }

  lemma FirstPiece(s: seq<byte>) returns (x: seq<byte>, more: seq<RawRead>)
    ensures Pieces(s) == [RawRead(x, false)] + more
    ensures x <= s && (x == s || |x| == SENTINEL_MAX)
  {
    var m := if |s| <= SENTINEL_MAX then |s| else SENTINEL_MAX;
    x, more := s[..m], Pieces(s)[1..];
  }

  lemma NowComplete(s: seq<byte>, m: nat)
    requires SentinelEnd(s) != None && SentinelEnd(s).value < m <= |s|
    ensures Look(s[..m]).Complete?
  {
    var i := SentinelEnd(s).value;
    assert PREFIX <= s[..m] by {
      assert forall k :: 0 <= k < |PREFIX| ==> s[..m][k] == s[k];
    }
    assert s[..m][i] == BEL;
  }

  lemma PeekTwice(x: seq<byte>, y: seq<byte>, rest: seq<RawRead>)
    requires 0 < |x| < SENTINEL_MAX && y != [] && Look(x) == Partial && Look(x + y).Complete?
    ensures Peek([], [RawRead(x, false), RawRead(y, false)] + rest).stripped
  {
    hide Look, ParsePayload;
    var raw := [RawRead(x, false), RawRead(y, false)] + rest;
    assert raw[1..] == [RawRead(y, false)] + rest;
    assert [] + x == x;
    assert Peek([], raw) == Peek(x, raw[1..]);
  }

  lemma NotYet(s: seq<byte>, n: nat)
    requires SentinelEnd(s) != None && |PREFIX| <= n <= SentinelEnd(s).value
    ensures n <= |s| && Look(s[..n]) == Partial
  {
    var i := SentinelEnd(s).value;
    var buf := s[..n];
    assert PREFIX <= buf;
    assert forall k :: 0 <= k < |buf| ==> buf[k] == s[k];
  }

  /** What a settled stream always leads to: the sentinel found, or nothing taken out. */
  function Expected(s: seq<byte>): Result {
    var end := SentinelEnd(s);
    if end != None && end.value < SENTINEL_MAX then
      Result(true, ParsePayload(s[|PREFIX|..end.value]), s[end.value + 1..])
    else Result(false, SILENT, s)
  }

  lemma SettledResult(s: seq<byte>, raw: seq<RawRead>)
    requires Arrives(s, raw) && Settled(s)
    ensures ResultOf(raw) == Expected(s)
  {
    hide SentinelEnd, ParsePayload, Peek, Fitting, NoEarlyError, Look, Flatten;
    assert [] + Flatten(raw) == s;
    Transparent([], raw);
    if SentinelEnd(s) != None && SentinelEnd(s).value < SENTINEL_MAX {
      NothingYet();
      EarlyFound(s, [], raw);
    }
  }

  lemma NothingYet()
    ensures Look([]) == Partial
  {
  }

  /** The exact condition: what the caller gets, and what the host learns, is the same for all ways the
      stream can arrive without an error, unless a leading sentinel's BEL lies at index 256 to 510. */
  lemma ChunkIndependence(s: seq<byte>)
    ensures !(SentinelEnd(s) != None && 256 <= SentinelEnd(s).value <= 510) <==>
            forall x, y :: Arrives(s, x) && Arrives(s, y) ==> ResultOf(x) == ResultOf(y)
  {
    if Settled(s) {
      forall x, y | Arrives(s, x) && Arrives(s, y) ensures ResultOf(x) == ResultOf(y) {
        SettledResult(s, x);
        SettledResult(s, y);
      }
    } else {
      CutArrives(s, SENTINEL_MAX);
      CutArrives(s, SENTINEL_MAX - 1);
      LateMissed(s);
      LateFound(s);
      var x, y := CutAt(s, SENTINEL_MAX), CutAt(s, SENTINEL_MAX - 1);
      assert ResultOf(x).stripped != ResultOf(y).stripped;
    }
  }
}
