/** What a Telnet client means, how it is put on the wire, and that the parser recovers it. */
module TelnetStream {
  import opened Bytes
  import opened Telnet

  /** The units of a client's stream. */
  datatype Item =
    | Octet(b: byte)                              // a data byte, 255 included
    | Negotiate(verb: byte, opt: byte)            // WILL, WONT, DO or DONT
    | Command(code: byte)                         // any other two-byte command
    | Subneg(opt: byte, payload: seq<byte>)       // a subnegotiation

  predicate Legal(item: Item) {
    match item
    case Octet(_) => true
    case Negotiate(verb, _) => verb in [WILL, WONT, DO, DONT]
    case Command(code) => code !in [IAC, SB, WILL, WONT, DO, DONT]
    case Subneg(_, _) => true
  }

  ghost predicate AllLegal(items: seq<Item>) {
    forall k :: 0 <= k < |items| ==> Legal(items[k])
  }

  // ---------------------------------------------------------------------------
  // The encoding (RFC 854): IAC introduces commands, and a data byte 255 is sent twice
  // ---------------------------------------------------------------------------

  function Escape(data: seq<byte>): seq<byte> {
    if data == [] then []
    else (if data[0] == IAC then [IAC, IAC] else [data[0]]) + Escape(data[1..])
  }

  function EncodeItem(item: Item): seq<byte> {
    match item
    case Octet(b) => Escape([b])
    case Negotiate(verb, opt) => [IAC, verb, opt]
    case Command(code) => [IAC, code]
    case Subneg(opt, payload) => [IAC, SB] + (Escape([opt] + payload) + [IAC, SE])
  }

  function Encode(items: seq<Item>): seq<byte> {
    if items == [] then [] else EncodeItem(items[0]) + Encode(items[1..])
  }

  // ---------------------------------------------------------------------------
  // The meaning
  // ---------------------------------------------------------------------------

  function DataOf(items: seq<Item>): seq<byte> {
    if items == [] then []
    else (if items[0].Octet? then [items[0].b] else []) + DataOf(items[1..])
  }

  function RepliesTo(items: seq<Item>): seq<byte> {
    if items == [] then []
    else (if items[0].Negotiate? then ReplyTo(items[0].verb, items[0].opt) else []) + RepliesTo(items[1..])
  }

  /** The parser takes 0 to mean that it has not seen the option yet, and 255 for data wherever it is sent
      twice. So of a subnegotiation's bytes, option first, it takes the first that is neither as the option;
      before it, it drops the zeros and keeps the 255s as data. */
  function HeardOption(s: seq<byte>): byte {
    if s == [] then 0
    else if s[0] == 0 || s[0] == IAC then HeardOption(s[1..])
    else s[0]
  }

  function HeardData(s: seq<byte>): seq<byte> {
    if s == [] then []
    else if s[0] == 0 then HeardData(s[1..])
    else if s[0] == IAC then [IAC] + HeardData(s[1..])
    else s[1..]
  }

  /** An item as the parser understands it. */
  function Heard(item: Item): Item {
    match item
    case Subneg(opt, payload) => Subneg(HeardOption([opt] + payload), HeardData([opt] + payload))
    case _ => item
  }

  function HeardAll(items: seq<Item>): seq<Item> {
    if items == [] then [] else [Heard(items[0])] + HeardAll(items[1..])
  }

  predicate IsSize(item: Item) {
    item.Subneg? && item.opt == NAWS && |item.payload| >= 4
  }

  function SizeOf(item: Item): WindowSize
    requires IsSize(item)
  {
    WindowSize(Join(item.payload[0], item.payload[1]), Join(item.payload[2], item.payload[3]))
  }

  /** The window size announced last, if any. */
  function LastSize(items: seq<Item>, before: WindowSize): WindowSize {
    if items == [] then before
    else
      var last := items[|items| - 1];
      if IsSize(last) then SizeOf(last) else LastSize(items[..|items| - 1], before)
  }

  /** Every window size announced, in order. */
  function Sizes(items: seq<Item>): seq<WindowSize> {
    if items == [] then []
    else (if IsSize(items[0]) then [SizeOf(items[0])] else []) + Sizes(items[1..])
  }

  /** What a queue holds after these announcements, if nothing is taken from it. */
  function Filled(changes: seq<WindowSize>, sizes: seq<WindowSize>): seq<WindowSize> {
    var room := if |changes| < CHANGES_MAX then CHANGES_MAX - |changes| else 0;
    changes + if |sizes| <= room then sizes else sizes[..room]
  }

  predicate NamesTerminal(item: Item) {
    && item.Subneg? && item.opt == TTYPE && |item.payload| >= 1 && item.payload[0] == TTYPE_IS
    && TrimSpace(item.payload[1..]) != []
  }

  /** The terminal type named first, if any. */
  function FirstTerminal(items: seq<Item>): seq<byte> {
    if items == [] then []
    else if NamesTerminal(items[0]) then TrimSpace(items[0].payload[1..])
    else FirstTerminal(items[1..])
  }

  // ---------------------------------------------------------------------------
  // The parser recovers the meaning
  // ---------------------------------------------------------------------------

  /** `f` is what one item must leave behind, starting from `c`. */
  ghost predicate Recovered(c: Core, item: Item, f: Fed) {
    && f.core.state == InData
    && f.data == (if item.Octet? then [item.b] else [])
    && f.replies == (if item.Negotiate? then ReplyTo(item.verb, item.opt) else [])
    && f.core.win == (if IsSize(item) then SizeOf(item) else c.win)
    && f.core.term == (if c.term == [] && NamesTerminal(item) then TrimSpace(item.payload[1..]) else c.term)
    && f.core.changes == (if IsSize(item) then Announce(c.changes, SizeOf(item)) else c.changes)
  }

  lemma OctetRecovered(c: Core, b: byte)
    requires c.state == InData
    ensures Recovered(c, Octet(b), FeedAll(c, EncodeItem(Octet(b))))
  {
    assert [b][1..] == [];
    assert Escape([b]) == if b == IAC then [IAC, IAC] else [b];
    hide FeedAll;
    if b == IAC { FeedTwo(c, IAC, IAC); } else { FeedOneByte(c, b); }
  }

  lemma NegotiationRecovered(c: Core, verb: byte, opt: byte)
    requires c.state == InData && Legal(Negotiate(verb, opt))
    ensures Recovered(c, Negotiate(verb, opt), FeedAll(c, EncodeItem(Negotiate(verb, opt))))
  {
    hide FeedAll, ReplyTo;
    FeedThree(c, IAC, verb, opt);
    assert FeedByte(c, IAC) == Fed(c.(state := InIac), [], []);
    assert FeedByte(c.(state := InIac), verb) == Fed(c.(state := InOption, cmd := verb), [], []);
  }

  lemma CommandRecovered(c: Core, code: byte)
    requires c.state == InData && Legal(Command(code))
    ensures Recovered(c, Command(code), FeedAll(c, EncodeItem(Command(code))))
  {
    hide FeedAll;
    FeedTwo(c, IAC, code);
    assert FeedByte(c, IAC) == Fed(c.(state := InIac), [], []);
  }

  lemma SubnegRecovered(c: Core, opt: byte, payload: seq<byte>)
    requires c.state == InData
    ensures Recovered(c, Heard(Subneg(opt, payload)), FeedAll(c, EncodeItem(Subneg(opt, payload))))
  {
    hide FeedAll, Escape, Learn, HeardOption, HeardData, EncodeItem, IsSize, SizeOf, NamesTerminal;
    var all := [opt] + payload;
    var full := c.(state := InSubIac, subOpt := HeardOption(all), subData := HeardData(all));
    SubnegFed(c, opt, payload);
    LearnMeans(full);
  }

  /** Fed a subnegotiation, the parser learns from what it hears. */
  lemma SubnegFed(c: Core, opt: byte, payload: seq<byte>)
    requires c.state == InData
    ensures var all := [opt] + payload;
            var full := c.(state := InSubIac, subOpt := HeardOption(all), subData := HeardData(all));
            FeedAll(c, EncodeItem(Subneg(opt, payload))) == Fed(Learn(full).(state := InData), [], [])
  {
    hide FeedAll, Escape, Learn, HeardOption, HeardData;
    var all := [opt] + payload;
    var inside := c.(state := InSub, subOpt := 0, subData := []);
    SubnegOpens(c);
    FeedConcat(c, [IAC, SB], Escape(all) + [IAC, SE]);
    FeedConcat(inside, Escape(all), [IAC, SE]);
    OptionFound(inside, all);
    assert [] + HeardData(all) == HeardData(all);
    SubnegCloses(inside.(subOpt := HeardOption(all), subData := HeardData(all)));
  }

  lemma SubnegOpens(c: Core)
    requires c.state == InData
    ensures FeedAll(c, [IAC, SB]) == Fed(c.(state := InSub, subOpt := 0, subData := []), [], [])
  {
    hide FeedAll;
    FeedTwo(c, IAC, SB);
    assert FeedByte(c, IAC) == Fed(c.(state := InIac), [], []);
  }

  lemma SubnegCloses(c: Core)
    requires c.state == InSub
    ensures FeedAll(c, [IAC, SE]) == Fed(Learn(c.(state := InSubIac)).(state := InData), [], [])
  {
    hide FeedAll, Learn;
    FeedTwo(c, IAC, SE);
    assert FeedByte(c, IAC) == Fed(c.(state := InSubIac), [], []);
  }

  lemma LearnMeans(c: Core)
    ensures var item := Subneg(c.subOpt, c.subData);
            && Learn(c).win == (if IsSize(item) then SizeOf(item) else c.win)
            && Learn(c).term ==
               (if c.term == [] && NamesTerminal(item) then TrimSpace(item.payload[1..]) else c.term)
            && Learn(c).changes == (if IsSize(item) then Announce(c.changes, SizeOf(item)) else c.changes)
  {
    hide TrimSpace, Join, Announce;
  }

  lemma ItemRecovered(c: Core, item: Item)
    requires c.state == InData && Legal(item)
    ensures Recovered(c, Heard(item), FeedAll(c, EncodeItem(item)))
  {
    hide FeedAll, EncodeItem, Recovered, HeardOption, HeardData;
    match item
    case Octet(b) => OctetRecovered(c, b);
    case Negotiate(verb, opt) => NegotiationRecovered(c, verb, opt);
    case Command(code) => CommandRecovered(c, code);
    case Subneg(opt, payload) => SubnegRecovered(c, opt, payload);
  }

  lemma FeedOneByte(c: Core, b: byte)
    ensures FeedAll(c, [b]) == FeedByte(c, b)
  {
    hide FeedByte;
    var f := FeedByte(c, b);
    assert [b][1..] == [];
    assert f.data + [] == f.data && f.replies + [] == f.replies;
  }

  lemma FeedTwo(c: Core, a: byte, b: byte)
    ensures var f := FeedByte(c, a);
            var g := FeedByte(f.core, b);
            FeedAll(c, [a, b]) == Fed(g.core, f.data + g.data, f.replies + g.replies)
  {
    hide FeedByte;
    assert [a, b][1..] == [b];
    FeedOneByte(FeedByte(c, a).core, b);
  }

  lemma FeedThree(c: Core, a: byte, b: byte, d: byte)
    ensures var f := FeedByte(c, a);
            var g := FeedByte(f.core, b);
            var h := FeedByte(g.core, d);
            FeedAll(c, [a, b, d]) ==
            Fed(h.core, f.data + (g.data + h.data), f.replies + (g.replies + h.replies))
  {
    hide FeedByte;
    assert [a, b, d][1..] == [b, d];
    FeedTwo(FeedByte(c, a).core, b, d);
  }

  lemma PayloadByte(c: Core, b: byte)
    requires c.state == InSub && (c.subOpt != 0 || b == IAC)
    ensures FeedAll(c, if b == IAC then [IAC, IAC] else [b]) == Fed(c.(subData := c.subData + [b]), [], [])
  {
    hide FeedAll, Learn;
    if b == IAC {
      FeedTwo(c, IAC, IAC);
      assert FeedByte(c, IAC) == Fed(c.(state := InSubIac), [], []);
    } else {
      FeedOneByte(c, b);
    }
  }

  /** The bytes of a subnegotiation before its option is seen. */
  lemma {:induction false} OptionFound(c: Core, s: seq<byte>)
    requires c.state == InSub && c.subOpt == 0
    ensures FeedAll(c, Escape(s)) == Fed(c.(subOpt := HeardOption(s), subData := c.subData + HeardData(s)), [], [])
    decreases |s|
  {
    hide FeedAll, FeedByte;
    if s == [] {
      FeedNothing(c);
      assert c.subData + [] == c.subData;
    } else {
      var b := s[0];
      if b == IAC {
        PayloadByte(c, b);
        FeedConcat(c, [IAC, IAC], Escape(s[1..]));
        OptionFound(c.(subData := c.subData + [b]), s[1..]);
        assert (c.subData + [IAC]) + HeardData(s[1..]) == c.subData + ([IAC] + HeardData(s[1..]));
      } else {
        OptionByte(c, b);
        FeedConcat(c, [b], Escape(s[1..]));
        if b == 0 {
          OptionFound(c, s[1..]);
        } else {
          PayloadCollected(c.(subOpt := b), s[1..]);
        }
      }
    }
  }

  lemma OptionByte(c: Core, b: byte)
    requires c.state == InSub && c.subOpt == 0 && b != IAC
    ensures FeedAll(c, [b]) == Fed(c.(subOpt := b), [], [])
  {
    hide FeedAll, Learn;
    FeedOneByte(c, b);
  }

  lemma {:induction false} PayloadCollected(c: Core, payload: seq<byte>)
    requires c.state == InSub && c.subOpt != 0
    ensures FeedAll(c, Escape(payload)) == Fed(c.(subData := c.subData + payload), [], [])
    decreases |payload|
  {
    hide FeedAll;
    if payload == [] {
      assert c.subData + payload == c.subData;
      FeedNothing(c);
    } else {
      var b := payload[0];
      var code := if b == IAC then [IAC, IAC] else [b];
      PayloadByte(c, b);
      FeedConcat(c, code, Escape(payload[1..]));
      PayloadCollected(c.(subData := c.subData + [b]), payload[1..]);
      assert (c.subData + [b]) + payload[1..] == c.subData + payload;
    }
  }

  lemma {:induction false} LastSizeCons(items: seq<Item>, before: WindowSize)
    requires items != []
    ensures LastSize(items, before) ==
            LastSize(items[1..], if IsSize(items[0]) then SizeOf(items[0]) else before)
    decreases |items|
  {
    hide SizeOf, IsSize;
    var n := |items|;
    if n > 1 && !IsSize(items[n - 1]) {
      LastSizeCons(items[..n - 1], before);
      assert items[..n - 1][1..] == items[1..][..n - 2];
    } else if n == 1 {
      assert items[..0] == [];
    }
  }

  /** Announcing one more size. */
  lemma FilledCons(changes: seq<WindowSize>, size: WindowSize, rest: seq<WindowSize>)
    ensures Filled(Announce(changes, size), rest) == Filled(changes, [size] + rest)
  {
  }

  /** Round trip: from a client's stream the parser recovers the data, owes the prescribed replies, and learns
      the last window size and the first terminal type of what it hears; the sizes wait in the queue in the
      order announced, as many as it has room for. */
  lemma {:induction false} StreamRecovered(c: Core, items: seq<Item>)
    requires c.state == InData && AllLegal(items)
    ensures var f := FeedAll(c, Encode(items));
            && f.core.state == InData
            && f.data == DataOf(items)
            && f.replies == RepliesTo(items)
            && f.core.win == LastSize(HeardAll(items), c.win)
            && f.core.term == (if c.term == [] then FirstTerminal(HeardAll(items)) else c.term)
            && f.core.changes == Filled(c.changes, Sizes(HeardAll(items)))
    decreases |items|
  {
    hide FeedAll, IsSize, SizeOf, NamesTerminal, EncodeItem, ReplyTo, Heard, Filled, Announce, LastSize;
    if items == [] {
      FeedNothing(c);
      NoneHeard(c);
    } else {
      var item, rest := items[0], items[1..];
      var f := FeedAll(c, EncodeItem(item));
      ItemRecovered(c, item);
      ItemKinds(item);
      FeedConcat(c, EncodeItem(item), Encode(rest));
      StreamRecovered(f.core, rest);
      assert HeardAll(items)[1..] == HeardAll(rest);
      LastSizeCons(HeardAll(items), c.win);
      NamedIsNonEmpty(Heard(item));
      SizesCons(c, Heard(item), HeardAll(rest), f.core.changes);
    }
  }

  lemma ItemKinds(item: Item)
    ensures Heard(item).Octet? <==> item.Octet?
    ensures Heard(item).Negotiate? <==> item.Negotiate?
    ensures !item.Subneg? ==> Heard(item) == item
  {
  }

  lemma NoneHeard(c: Core)
    ensures LastSize([], c.win) == c.win && Filled(c.changes, []) == c.changes
  {
  }

  lemma SizesCons(c: Core, item: Item, rest: seq<Item>, changes: seq<WindowSize>)
    requires changes == if IsSize(item) then Announce(c.changes, SizeOf(item)) else c.changes
    ensures Filled(changes, Sizes(rest)) == Filled(c.changes, Sizes([item] + rest))
  {
    hide Filled, Announce, IsSize, SizeOf;
    assert ([item] + rest)[1..] == rest;
    if IsSize(item) {
      FilledCons(c.changes, SizeOf(item), Sizes(rest));
    } else {
      assert [] + Sizes(rest) == Sizes(rest);
    }
  }

  lemma NamedIsNonEmpty(item: Item)
    ensures NamesTerminal(item) ==> TrimSpace(item.payload[1..]) != []
  {
  }

  // ---------------------------------------------------------------------------
  // When the parser hears what was meant
  // ---------------------------------------------------------------------------

  lemma {:induction false} OnlyEscapes(s: seq<byte>)
    ensures |HeardData(s)| <= |s| && HeardOption(s) != IAC
    ensures HeardOption(s) == 0 && HeardData(s) == s <==> forall k :: 0 <= k < |s| ==> s[k] == IAC
  {
    if s != [] && (s[0] == 0 || s[0] == IAC) {
      OnlyEscapes(s[1..]);
      if s[0] == IAC {
        assert s == [IAC] + s[1..];
        assert forall k :: 0 <= k < |s[1..]| ==> s[1..][k] == s[k + 1];
        assert HeardData(s)[1..] == HeardData(s[1..]);
      }
    }
  }

  /** A subnegotiation is heard as it was meant if and only if its option is neither 255 nor 0; except that
      with option 0 it is as well when its data are all 255. */
  lemma HeardAsMeant(opt: byte, payload: seq<byte>)
    ensures Heard(Subneg(opt, payload)) == Subneg(opt, payload) <==>
            opt != IAC && (opt == 0 ==> forall k :: 0 <= k < |payload| ==> payload[k] == IAC)
  {
    var all := [opt] + payload;
    assert all[1..] == payload;
    OnlyEscapes(all);
    OnlyEscapes(payload);
  }

  /** Every 16-bit window size survives, sizes with bytes 255 in them included. */
  lemma SizeRecovered(c: Core, before: seq<Item>, cols: bv16, rows: bv16)
    requires c.state == InData && AllLegal(before)
    ensures var size := Subneg(NAWS, [Hi(cols), Lo(cols), Hi(rows), Lo(rows)]);
            FeedAll(c, Encode(before + [size])).core.win == WindowSize(cols, rows)
  {
    hide FeedAll, Hi, Lo, Join, HeardOption, HeardData;
    var size := Subneg(NAWS, [Hi(cols), Lo(cols), Hi(rows), Lo(rows)]);
    StreamRecovered(c, before + [size]);
    HeardSnoc(before, size);
    HeardAsMeant(NAWS, size.payload);
    JoinSplit(cols);
    JoinSplit(rows);
  }

  lemma {:induction false} EscapePlain(s: seq<byte>)
    requires IAC !in s
    ensures Escape(s) == s
  {
    if s != [] {
      EscapePlain(s[1..]);
      assert [s[0]] + s[1..] == s;
    }
  }

  lemma PlainSubneg(opt: byte, payload: seq<byte>)
    requires opt != IAC && opt != 0 && IAC !in payload
    ensures Encode([Subneg(opt, payload)]) == [255, 250, opt] + payload + [255, 240]
    ensures HeardAll([Subneg(opt, payload)]) == [Subneg(opt, payload)]
  {
    EscapePlain([opt] + payload);
    HeardAsMeant(opt, payload);
    hide Escape, Heard;
    var items := [Subneg(opt, payload)];
    assert items[1..] == [];
    assert EncodeItem(items[0]) == [255, 250] + (([opt] + payload) + [255, 240]);
    assert [Heard(items[0])] + [] == [items[0]];
  }

  /** The window size as RFC 1073 puts it on the wire, when none of its bytes is 255. */
  lemma SizeOnWire(c: Core, w1: byte, w0: byte, h1: byte, h0: byte)
    requires c.state == InData && 255 !in [w1, w0, h1, h0]
    ensures FeedAll(c, [255, 250, 31, w1, w0, h1, h0, 255, 240]).core.win == WindowSize(Join(w1, w0), Join(h1, h0))
  {
    hide FeedAll, Encode, HeardAll, Join, LastSize, Filled, FirstTerminal, Sizes, DataOf, RepliesTo;
    var size := Subneg(31, [w1, w0, h1, h0]);
    PlainSubneg(31, size.payload);
    assert [255, 250, 31] + size.payload + [255, 240] == [255, 250, 31, w1, w0, h1, h0, 255, 240];
    StreamRecovered(c, [size]);
    LastAlone(size, c.win);
  }

  lemma LastAlone(item: Item, before: WindowSize)
    requires IsSize(item)
    ensures LastSize([item], before) == SizeOf(item)
  {
  }

  /** The terminal type as RFC 1091 puts it on the wire: it is taken without the white space around it, and only if
      none is known. */
  lemma TerminalOnWire(c: Core, name: seq<byte>)
    requires c.state == InData && 255 !in name
    ensures FeedAll(c, [255, 250, 24, 0] + name + [255, 240]).core.term == if c.term == [] then TrimSpace(name) else c.term
  {
    hide FeedAll, Encode, HeardAll, TrimSpace;
    var item := Subneg(24, [0] + name);
    PlainSubneg(24, [0] + name);
    assert [255, 250, 24] + ([0] + name) + [255, 240] == [255, 250, 24, 0] + name + [255, 240];
    StreamRecovered(c, [item]);
    assert item.payload[1..] == name;
    FirstAlone(item);
  }

  lemma FirstAlone(item: Item)
    ensures FirstTerminal([item]) == if NamesTerminal(item) then TrimSpace(item.payload[1..]) else []
  {
    hide TrimSpace;
    assert [item][1..] == [] && FirstTerminal([]) == [];
  }

  /** Of the sizes announced before anyone takes one, the first eight are queued. */
  lemma SizesQueued(items: seq<Item>)
    requires AllLegal(items)
    ensures var sizes := Sizes(HeardAll(items));
            FeedAll(START, Encode(items)).core.changes == if |sizes| <= 8 then sizes else sizes[..8]
  {
    hide FeedAll, Encode, HeardAll, Sizes;
    StreamRecovered(START, items);
    var sizes := Sizes(HeardAll(items));
    assert [] + sizes == sizes;
    assert |sizes| > 8 ==> [] + sizes[..8] == sizes[..8];
  }

  /** Inside a subnegotiation, an IAC before any byte but SE stands for that byte. */
  lemma StrayEscape(c: Core, b: byte)
    requires c.state == InSub && c.subOpt != 0 && b != 240
    ensures FeedAll(c, [255, b]) == Fed(c.(subData := c.subData + [b]), [], [])
  {
    hide FeedAll, Learn;
    FeedTwo(c, 255, b);
  }

  lemma {:induction false} HeardSnoc(items: seq<Item>, item: Item)
    ensures HeardAll(items + [item]) == HeardAll(items) + [Heard(item)]
  {
    hide Heard;
    if items != [] {
      assert (items + [item])[1..] == items[1..] + [item];
      HeardSnoc(items[1..], item);
    } else {
      assert [item][1..] == [];
    }
  }
}
