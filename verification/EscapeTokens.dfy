/** What a terminal's byte stream is made of, and that the strippers take out just the escape sequences. */
module EscapeTokens {
  import opened Bytes
  import opened Escapes

  /** A byte of text, a two-byte escape, or a control sequence (section 5.4 of ECMA-48). */
  datatype Token =
    | Plain(b: byte)
    | Short(x: byte)
    | Sequence(params: seq<byte>, final: byte)

  predicate Legal(t: Token) {
    match t
    case Plain(b) => b != 0x1B
    case Short(x) => x != 0x5B
    case Sequence(params, final) => NoFinal(params) && 0x40 <= final <= 0x7E
  }

  predicate NoFinal(params: seq<byte>) {
    forall k :: 0 <= k < |params| ==> params[k] < 0x40 || params[k] > 0x7E
  }

  predicate AllLegal(tokens: seq<Token>) {
    forall k :: 0 <= k < |tokens| ==> Legal(tokens[k])
  }

  function Encode(t: Token): (s: seq<byte>)
    ensures s != []
  {
    match t
    case Plain(b) => [b]
    case Short(x) => [0x1B, x]
    case Sequence(params, final) => [0x1B, 0x5B] + params + [final]
  }

  function Text(tokens: seq<Token>): seq<byte> {
    if tokens == [] then [] else Encode(tokens[0]) + Text(tokens[1..])
  }

  /** The bytes of text. */
  function PlainOf(tokens: seq<Token>): seq<byte> {
    if tokens == [] then []
    else (if tokens[0].Plain? then [tokens[0].b] else []) + PlainOf(tokens[1..])
  }

  /** An escape sequence that the stream breaks off, or nothing. */
  predicate Unfinished(s: seq<byte>) {
    s == [] || s == [0x1B] || (|s| >= 2 && s[0] == 0x1B && s[1] == 0x5B && NoFinal(s[2..]))
  }

  // ---------------------------------------------------------------------------
  // Every stream is made of these
  // ---------------------------------------------------------------------------

  function FinalAt(s: seq<byte>): (i: nat)
    ensures i <= |s| && NoFinal(s[..i]) && (i < |s| ==> 0x40 <= s[i] <= 0x7E)
  {
    if s == [] || 0x40 <= s[0] <= 0x7E then 0
    else
      var i := 1 + FinalAt(s[1..]);
      assert s[..i] == [s[0]] + s[1..][..i - 1];
      i
  }

  lemma FinalFound(s: seq<byte>)
    ensures FinalAt(s) == |s| ==> NoFinal(s)
  {
    if FinalAt(s) == |s| {
      assert s[..|s|] == s;
    }
  }

  /** The first token of a stream, and the rest. */
  lemma FirstToken(s: seq<byte>) returns (t: Token, rest: seq<byte>)
    requires !Unfinished(s)
    ensures Legal(t) && s == Encode(t) + rest && |rest| < |s|
  {
    if s[0] != 0x1B {
      t, rest := Plain(s[0]), s[1..];
    } else {
      OnlyEscape(s);
      if s[1] != 0x5B {
        t, rest := Short(s[1]), s[2..];
      } else {
        var i := FinalAt(s[2..]);
        FinalFound(s[2..]);
        t, rest := Sequence(s[2..][..i], s[2 + i]), s[3 + i..];
        assert s == [s[0], s[1]] + s[2..][..i] + [s[2 + i]] + s[3 + i..];
      }
    }
  }

  lemma OnlyEscape(s: seq<byte>)
    ensures |s| == 1 && s[0] == 0x1B ==> s == [0x1B]
  {
  }

  lemma TextCons(t: Token, tokens: seq<Token>)
    ensures Text([t] + tokens) == Encode(t) + Text(tokens)
    ensures PlainOf([t] + tokens) == (if t.Plain? then [t.b] else []) + PlainOf(tokens)
  {
    assert ([t] + tokens)[1..] == tokens;
  }

  lemma {:induction false} Tokenised(s: seq<byte>) returns (tokens: seq<Token>, tail: seq<byte>)
    ensures AllLegal(tokens) && Unfinished(tail) && s == Text(tokens) + tail
    decreases |s|
  {
    hide Legal, Unfinished, Encode;
    if Unfinished(s) {
      tokens, tail := [], s;
    } else {
      var t, rest := FirstToken(s);
      var more;
      more, tail := Tokenised(rest);
      tokens := [t] + more;
      TextCons(t, more);
      assert Encode(t) + (Text(more) + tail) == (Encode(t) + Text(more)) + tail;
    }
  }

  // ---------------------------------------------------------------------------
  // Stripping
  // ---------------------------------------------------------------------------

  lemma {:induction false} ParamsSilent(params: seq<byte>)
    requires NoFinal(params)
    ensures Scan(Csi, params) == [] && ModeAfter(Csi, params) == Csi
  {
    if params != [] {
      ParamsSilent(params[1..]);
    }
  }

  lemma ParamsScanned(params: seq<byte>, more: seq<byte>)
    requires NoFinal(params)
    ensures Scan(Csi, params + more) == Scan(Csi, more)
  {
    ParamsSilent(params);
    ScanConcat(Csi, params, more);
  }

  lemma EscapeOpens(x: byte, rest: seq<byte>)
    ensures Strip([0x1B, x] + rest) == Scan(if x == 0x5B then Csi else Ground, rest)
  {
    var s := [0x1B, x] + rest;
    assert s[1..] == [x] + rest && s[1..][1..] == rest;
    assert Strip(s) == [] + Scan(Escape, s[1..]);
    assert Scan(Escape, s[1..]) == [] + Scan(NextMode(Escape, x), rest);
  }

  lemma TokenScanned(t: Token, rest: seq<byte>)
    requires Legal(t)
    ensures Strip(Encode(t) + rest) == (if t.Plain? then [t.b] else []) + Strip(rest)
  {
    var s := Encode(t) + rest;
    match t
    case Plain(b) =>
      assert s[1..] == rest;
    case Short(x) =>
      EscapeOpens(x, rest);
    case Sequence(params, final) =>
      var more := params + ([final] + rest);
      assert s == [0x1B, 0x5B] + more;
      EscapeOpens(0x5B, more);
      ParamsScanned(params, [final] + rest);
      assert ([final] + rest)[1..] == rest;
  }

  lemma TailScanned(tail: seq<byte>)
    requires Unfinished(tail)
    ensures Strip(tail) == []
  {
    if |tail| == 1 {
      assert tail[1..] == [] && Scan(Escape, []) == [];
      assert Strip(tail) == [] + Scan(Escape, tail[1..]);
    } else if |tail| >= 2 {
      assert tail == [0x1B, 0x5B] + tail[2..];
      EscapeOpens(0x5B, tail[2..]);
      ParamsSilent(tail[2..]);
    }
  }

  /** Stripping leaves exactly the bytes of text. */
  lemma {:induction false} StripExactly(tokens: seq<Token>, tail: seq<byte>)
    requires AllLegal(tokens) && Unfinished(tail)
    ensures Strip(Text(tokens) + tail) == PlainOf(tokens)
  {
    hide Legal, Unfinished, Encode, Strip;
    if tokens == [] {
      assert Text(tokens) + tail == tail;
      TailScanned(tail);
    } else {
      var more := Text(tokens[1..]) + tail;
      assert Text(tokens) + tail == Encode(tokens[0]) + more;
      TokenScanned(tokens[0], more);
      StripExactly(tokens[1..], tail);
    }
  }

  // ---------------------------------------------------------------------------
  // Sanitising
  // ---------------------------------------------------------------------------

  /** Text that is let through: printable bytes, high bytes, TAB, LF and CR. */
  predicate LetThrough(t: Token) {
    t.Plain? && ((t.b >= 0x20 && t.b != 0x7F) || t.b == 0x09 || t.b == 0x0A || t.b == 0x0D)
  }

  /** `out` is the text at these places, in order. */
  ghost predicate Picked(out: seq<byte>, tokens: seq<Token>, at: seq<nat>) {
    && |out| == |at|
    && (forall k :: 0 <= k < |at| ==> at[k] < |tokens| && tokens[at[k]] == Plain(out[k]))
    && (forall j, k :: 0 <= j < k < |at| ==> at[j] < at[k])
  }

  /** The places are those of the tokens that are let through. */
  ghost predicate AllPlaces(tokens: seq<Token>, at: seq<nat>) {
    forall i :: 0 <= i < |tokens| ==> (i in at <==> LetThrough(tokens[i]))
  }

  lemma {:induction false} PlainSnoc(tokens: seq<Token>, t: Token)
    ensures PlainOf(tokens + [t]) == PlainOf(tokens) + if t.Plain? then [t.b] else []
  {
    if tokens == [] {
      assert [] + [t] == [t] && [t][1..] == [];
    } else {
      assert tokens == [tokens[0]] + tokens[1..];
      assert tokens + [t] == [tokens[0]] + (tokens[1..] + [t]);
      TextCons(tokens[0], tokens[1..] + [t]);
      TextCons(tokens[0], tokens[1..]);
      hide PlainOf;
      PlainSnoc(tokens[1..], t);
    }
  }

  lemma {:induction false} KeepSnoc(s: seq<byte>, b: byte)
    ensures Keep(s + [b]) == Keep(s) + if Allowed(b) then [b] else []
  {
    hide Allowed;
    if s == [] {
      assert s + [b] == [b];
    } else {
      assert s == [s[0]] + s[1..] && s + [b] == [s[0]] + (s[1..] + [b]);
      KeepFirst(s[0], s[1..] + [b]);
      KeepFirst(s[0], s[1..]);
      hide Keep;
      KeepSnoc(s[1..], b);
    }
  }

  lemma PickedMore(out: seq<byte>, tokens: seq<Token>, at: seq<nat>, t: Token)
    requires Picked(out, tokens, at) && AllPlaces(tokens, at)
    ensures !LetThrough(t) ==> Picked(out, tokens + [t], at) && AllPlaces(tokens + [t], at)
    ensures LetThrough(t) ==>
              Picked(out + [t.b], tokens + [t], at + [|tokens|]) && AllPlaces(tokens + [t], at + [|tokens|])
  {
    hide LetThrough;
    assert LetThrough(t) ==> t.Plain? by { PlainOnly(t); }
  }

  lemma PlainOnly(t: Token)
    ensures LetThrough(t) ==> t.Plain?
    ensures t.Plain? ==> (LetThrough(t) <==> Allowed(t.b))
  {
  }

  lemma OneMorePlace(tokens: seq<Token>, t: Token, at: seq<nat>) returns (more: seq<nat>)
    requires Picked(Keep(PlainOf(tokens)), tokens, at) && AllPlaces(tokens, at)
    ensures Picked(Keep(PlainOf(tokens + [t])), tokens + [t], more) && AllPlaces(tokens + [t], more)
  {
    hide Picked, AllPlaces, LetThrough, Allowed, Keep, PlainOf;
    PlainSnoc(tokens, t);
    PlainOnly(t);
    if t.Plain? {
      KeepSnoc(PlainOf(tokens), t.b);
    }
    assert PlainOf(tokens) + [] == PlainOf(tokens) && Keep(PlainOf(tokens)) + [] == Keep(PlainOf(tokens));
    PickedMore(Keep(PlainOf(tokens)), tokens, at, t);
    more := if LetThrough(t) then at + [|tokens|] else at;
  }

  lemma {:induction false} KeepPlaces(tokens: seq<Token>) returns (at: seq<nat>)
    ensures Picked(Keep(PlainOf(tokens)), tokens, at) && AllPlaces(tokens, at)
    decreases |tokens|
  {
    at := [];
    if tokens != [] {
      hide Picked, AllPlaces, Keep, PlainOf;
      var n := |tokens| - 1;
      at := KeepPlaces(tokens[..n]);
      at := OneMorePlace(tokens[..n], tokens[n], at);
      assert tokens == tokens[..n] + [tokens[n]];
    }
  }

  /** What the sanitisers make of a stream: the text of it that is let through, all of it, in order. */
  lemma SanitizedExactly(tokens: seq<Token>, tail: seq<byte>) returns (at: seq<nat>)
    requires AllLegal(tokens) && Unfinished(tail)
    ensures Picked(Keep(Strip(Text(tokens) + tail)), tokens, at) && AllPlaces(tokens, at)
  {
    StripExactly(tokens, tail);
    hide Keep, Strip, Picked, AllPlaces;
    at := KeepPlaces(tokens);
  }

  // ---------------------------------------------------------------------------
  // Degrading
  // ---------------------------------------------------------------------------

  lemma {:induction false} DegradeConcat(x: seq<byte>, y: seq<byte>)
    requires 0x1A !in x
    ensures Degrade(x + y) == Degrade(x) + Degrade(y)
  {
    hide DegradeByte;
    if x == [] {
      assert x + y == y;
    } else {
      assert (x + y)[1..] == x[1..] + y;
      DegradeConcat(x[1..], y);
    }
  }

  /** Printable ASCII, TAB, LF and CR are shown as they are, up to the end-of-file marker; what follows that
      is not shown. */
  lemma {:induction false} DegradedText(x: seq<byte>, y: seq<byte>)
    requires forall k :: 0 <= k < |x| ==>
               (0x20 <= x[k] < 0x7F) || x[k] == 0x09 || x[k] == 0x0A || x[k] == 0x0D
    ensures Degrade(x) == x && Degrade(x + [0x1A] + y) == x
  {
    PlainDegrades(x);
    assert x + [0x1A] + y == x + ([0x1A] + y);
    DegradeConcat(x, [0x1A] + y);
    assert Degrade([0x1A] + y) == [];
    assert x + [] == x;
  }

  lemma {:induction false} PlainDegrades(x: seq<byte>)
    requires forall k :: 0 <= k < |x| ==>
               (0x20 <= x[k] < 0x7F) || x[k] == 0x09 || x[k] == 0x0A || x[k] == 0x0D
    ensures Degrade(x) == x && 0x1A !in x
  {
    if x != [] {
      PlainDegrades(x[1..]);
      assert [x[0]] + x[1..] == x;
    }
  }
}
