/** What a typed line contains, in terms of the keys that were pressed. */
module LineEditing {
  import opened Bytes
  import opened Escapes
  import opened EscapeTokens
  import opened Session

  /** The line that these keys leave: backspace and DEL cancel the last byte kept, other control bytes count for
      nothing, and so does text beyond 4096 bytes. */
  function Edited(keys: seq<byte>): (line: seq<byte>)
    ensures |line| <= 4096 && |line| <= |keys|
  {
    if keys == [] then []
    else
      var b, line := keys[|keys| - 1], Edited(keys[..|keys| - 1]);
      if b == 0x08 || b == 0x7F then if line == [] then [] else line[..|line| - 1]
      else if b < 0x20 || |line| == 4096 then line
      else line + [b]
  }

  predicate EndsHere(s: seq<byte>) {
    s != [] && (s[0] == 0x0D || s[0] == 0x0A)
  }

  /** No CR or LF is pressed. */
  predicate NoEnd(tokens: seq<Token>) {
    forall k :: 0 <= k < |tokens| && tokens[k].Plain? ==> tokens[k].b != 0x0D && tokens[k].b != 0x0A
  }

  // ---------------------------------------------------------------------------
  // Pulling tokens
  // ---------------------------------------------------------------------------

  lemma {:induction false} ParamsSkipped(params: seq<byte>, final: byte, rest: seq<byte>)
    requires NoFinal(params) && 0x40 <= final <= 0x7E
    ensures SkipCsi(params + [final] + rest) == rest
  {
    var s := params + [final] + rest;
    if params == [] {
      assert s == [final] + rest && s[1..] == rest;
    } else {
      assert s[1..] == params[1..] + [final] + rest;
      ParamsSkipped(params[1..], final, rest);
    }
  }

  lemma {:induction false} ParamsSwallowed(params: seq<byte>)
    requires NoFinal(params)
    ensures SkipCsi(params) == []
  {
    if params != [] {
      ParamsSwallowed(params[1..]);
    }
  }

  /** A byte of text is the next byte, and an escape sequence is passed over. */
  lemma TokenPulled(t: Token, rest: seq<byte>)
    requires Legal(t)
    ensures Pull(Encode(t) + rest) == if t.Plain? then (Some(t.b), rest) else Pull(rest)
  {
    var s := Encode(t) + rest;
    match t
    case Plain(b) =>
      assert s[1..] == rest;
    case Short(x) =>
      assert s[2..] == rest;
      assert AfterEscape(s) == rest;
    case Sequence(params, final) =>
      assert s[2..] == params + [final] + rest;
      ParamsSkipped(params, final, rest);
      assert AfterEscape(s) == rest;
  }

  lemma UnfinishedPulled(tail: seq<byte>)
    requires Unfinished(tail)
    ensures Pull(tail) == (None, [])
  {
    if tail != [] {
      if |tail| > 1 {
        ParamsSwallowed(tail[2..]);
      }
      assert AfterEscape(tail) == [];
    }
  }

  // ---------------------------------------------------------------------------
  // Lines
  // ---------------------------------------------------------------------------

  /** Two lines that differ only in what escape sequences are still to be passed over end alike. */
  lemma SameEnd(l: Line, m: Line)
    requires Pull(l.input) == Pull(m.input) && l.buf == m.buf && l.echo == m.echo
    ensures Pull(Last(l).input) == Pull(Last(m).input) && Last(l).buf == Last(m).buf && Last(l).echo == Last(m).echo
  {
    hide Pull, Last;
    LastUnfolds(l);
    LastUnfolds(m);
  }

  lemma EditedSnoc(keys: seq<byte>, b: byte)
    ensures var line := Edited(keys);
            Edited(keys + [b]) ==
            if b == 0x08 || b == 0x7F then if line == [] then [] else line[..|line| - 1]
            else if b < 0x20 || |line| == 4096 then line
            else line + [b]
  {
    assert (keys + [b])[..|keys|] == keys;
  }

  lemma StepEdits(l: Line, keys: seq<byte>)
    requires !l.Over() && l.buf == Edited(keys)
    ensures l.Step().buf == Edited(keys + [l.Key().value]) && l.Step().input == l.Unread()
  {
    EditedSnoc(keys, l.Key().value);
    hide Pull, Edited;
  }

  /** What becomes of a line that begins with the keys `done`. */
  lemma {:induction false} LineFrom(l: Line, done: seq<byte>) returns (head: seq<Token>, tail: seq<byte>)
    requires l.buf == Edited(done)
    ensures l.input == Text(head) + tail && AllLegal(head) && NoEnd(head)
    ensures if EndsHere(tail) then
              && Last(l).Key() != None && Last(l).Unread() == tail[1..]
              && Last(l).buf == Edited(done + PlainOf(head))
            else Unfinished(tail) && Last(l).Key() == None
    decreases |l.input|
  {
    hide Edited, Last, Pull, Encode, Text, PlainOf, Unfinished, AllLegal, NoEnd, Legal;
    LastUnfolds(l);
    if Unfinished(l.input) {
      head, tail := [], l.input;
      Nothing(tail, done);
      UnfinishedPulled(tail);
    } else {
      var t, rest := FirstToken(l.input);
      TokenPulled(t, rest);
      if t.Plain? && EndsLine(t.b) {
        head, tail := [], l.input;
        Nothing(tail, done);
        PlainFirst(t, rest);
      } else {
        var m := if t.Plain? then l.Step() else Line(rest, l.buf, l.echo);
        var keys := if t.Plain? then done + [t.b] else done;
        if t.Plain? {
          StepEdits(l, done);
        } else {
          SameEnd(l, m);
        }
        var more;
        more, tail := LineFrom(m, keys);
        head := [t] + more;
        OneMore(t, more, tail, done);
      }
    }
  }

  lemma Nothing(tail: seq<byte>, done: seq<byte>)
    ensures Text([]) + tail == tail && AllLegal([]) && NoEnd([]) && done + PlainOf([]) == done
    ensures Unfinished(tail) ==> !EndsHere(tail)
  {
  }

  lemma PlainFirst(t: Token, rest: seq<byte>)
    requires t.Plain?
    ensures var s := Encode(t) + rest; s[0] == t.b && s[1..] == rest
  {
  }

  lemma OneMore(t: Token, more: seq<Token>, tail: seq<byte>, done: seq<byte>)
    requires Legal(t) && AllLegal(more) && NoEnd(more) && (t.Plain? ==> !EndsLine(t.b))
    ensures Text([t] + more) + tail == Encode(t) + (Text(more) + tail)
    ensures AllLegal([t] + more) && NoEnd([t] + more)
    ensures done + PlainOf([t] + more) == (if t.Plain? then done + [t.b] else done) + PlainOf(more)
  {
    TextCons(t, more);
    hide Encode, Text, PlainOf, Legal;
    assert t.Plain? ==> done + ([t.b] + PlainOf(more)) == (done + [t.b]) + PlainOf(more);
    assert [] + PlainOf(more) == PlainOf(more);
  }

  /** For any input: it is keys without CR and LF, escape sequences among them or not, and then either CR or LF,
      in which case the line is what those keys leave and the rest stays unread, or the end of the stream, in which
      case there is no line. */
  lemma LineExactly(input: seq<byte>) returns (head: seq<Token>, tail: seq<byte>)
    ensures input == Text(head) + tail && AllLegal(head) && NoEnd(head)
    ensures var o := LineOutcome(input);
            if EndsHere(tail) then o.line == Some(Edited(PlainOf(head))) && o.unread == tail[1..]
            else Unfinished(tail) && o.line == None && o.unread == []
  {
    hide Edited, Last, Pull, Encode, Text, PlainOf, Unfinished, AllLegal, NoEnd, Legal;
    NoKeys();
    head, tail := LineFrom(Line(input, [], []), []);
    assert [] + PlainOf(head) == PlainOf(head);
  }

  lemma NoKeys()
    ensures Edited([]) == []
  {
  }

  // ---------------------------------------------------------------------------
  // Which keys are left
  // ---------------------------------------------------------------------------

  predicate IsText(b: byte) {
    b >= 0x20 && b != 0x7F
  }

  function Weight(b: byte): int {
    if IsText(b) then 1 else if b == 0x08 || b == 0x7F then -1 else 0
  }

  /** Bytes of text less erasures. */
  function Balance(keys: seq<byte>): int {
    if keys == [] then 0 else Balance(keys[..|keys| - 1]) + Weight(keys[|keys| - 1])
  }

  function TextCount(keys: seq<byte>): (n: nat) {
    if keys == [] then 0 else TextCount(keys[..|keys| - 1]) + if IsText(keys[|keys| - 1]) then 1 else 0
  }

  /** At no time have there been more erasures than text. */
  ghost predicate NeverBelow(keys: seq<byte>) {
    forall j {:trigger keys[..j]} :: 0 <= j <= |keys| ==> Balance(keys[..j]) >= 0
  }

  /** Key `i` is text, and no erasure after it reaches it. */
  ghost predicate Survives(keys: seq<byte>, i: nat)
    requires i < |keys|
  {
    IsText(keys[i]) && NeverBelow(keys[i + 1..])
  }

  lemma BalanceSnoc(keys: seq<byte>, b: byte)
    ensures Balance(keys + [b]) == Balance(keys) + Weight(b)
    ensures TextCount(keys + [b]) == TextCount(keys) + if IsText(b) then 1 else 0
  {
    assert (keys + [b])[..|keys|] == keys;
  }

  lemma NeverBelowSnoc(keys: seq<byte>, b: byte)
    ensures NeverBelow(keys + [b]) <==> NeverBelow(keys) && Balance(keys) + Weight(b) >= 0
  {
    hide Balance, Weight;
    var more := keys + [b];
    BalanceSnoc(keys, b);
    assert more[..|more|] == more && keys[..|keys|] == keys;
    if NeverBelow(more) {
      forall j {:trigger keys[..j]} | 0 <= j <= |keys| ensures Balance(keys[..j]) >= 0 {
        assert more[..j] == keys[..j];
      }
    }
    if NeverBelow(keys) && Balance(more) >= 0 {
      forall j {:trigger more[..j]} | 0 <= j <= |more| ensures Balance(more[..j]) >= 0 {
        assert j <= |keys| ==> more[..j] == keys[..j];
      }
    }
  }

  lemma SurvivesStep(keys: seq<byte>, b: byte, i: nat)
    requires i < |keys|
    ensures Survives(keys + [b], i) <==> Survives(keys, i) && Balance(keys[i + 1..]) + Weight(b) >= 0
  {
    hide Balance, Weight, IsText, NeverBelow;
    NeverBelowSnoc(keys[i + 1..], b);
    assert (keys + [b])[i + 1..] == keys[i + 1..] + [b];
  }

  lemma NewestSurvives(keys: seq<byte>, b: byte)
    ensures Survives(keys + [b], |keys|) <==> IsText(b)
  {
    hide IsText, Weight;
    var more := keys + [b];
    assert more[|keys| + 1..] == [];
  }

  /** The places are those of the keys that are left. */
  ghost predicate Left(keys: seq<byte>, line: seq<byte>, at: seq<nat>) {
    && |line| == |at|
    && (forall k :: 0 <= k < |at| ==> at[k] < |keys| && line[k] == keys[at[k]])
    && (forall j, k :: 0 <= j < k < |at| ==> at[j] < at[k])
    && (forall i :: 0 <= i < |keys| ==> (i in at <==> Survives(keys, i)))
  }

  /** As many bytes of text balance as are kept after a place. */
  ghost predicate Balanced(keys: seq<byte>, at: seq<nat>) {
    forall k {:trigger at[k]} :: 0 <= k < |at| ==> at[k] < |keys| && Balance(keys[at[k] + 1..]) == |at| - 1 - k
  }

  lemma LeftAfterText(keys: seq<byte>, line: seq<byte>, at: seq<nat>, b: byte)
    requires Left(keys, line, at) && Balanced(keys, at) && IsText(b)
    ensures Left(keys + [b], line + [b], at + [|keys|])
  {
    hide Balance, IsText, Survives;
    var more, at' := keys + [b], at + [|keys|];
    NewestSurvives(keys, b);
    forall i | 0 <= i < |more| ensures i in at' <==> Survives(more, i) {
      if i < |keys| {
        SurvivesStep(keys, b, i);
        if i in at {
          var k :| 0 <= k < |at| && at[k] == i;
          assert Weight(b) == 1;
        }
        assert more[i] == keys[i];
        TextWeighs(keys, b, i);
      }
    }
  }

  lemma TextWeighs(keys: seq<byte>, b: byte, i: nat)
    requires i < |keys| && IsText(b)
    ensures Survives(keys, i) ==> Balance(keys[i + 1..]) + Weight(b) >= 0
  {
    var later := keys[i + 1..];
    assert later[..|later|] == later;
  }

  lemma LeftAfterErasure(keys: seq<byte>, line: seq<byte>, at: seq<nat>, b: byte)
    requires Left(keys, line, at) && Balanced(keys, at) && Weight(b) == -1
    ensures at == [] ==> Left(keys + [b], line, at)
    ensures at != [] ==> Left(keys + [b], line[..|at| - 1], at[..|at| - 1])
  {
    hide Balance, IsText, Survives, Weight;
    var more := keys + [b];
    var at' := if at == [] then at else at[..|at| - 1];
    NotText(b);
    NewestSurvives(keys, b);
    forall i | 0 <= i < |more| ensures i in at' <==> Survives(more, i) {
      if i < |keys| {
        SurvivesStep(keys, b, i);
        if i in at {
          var k :| 0 <= k < |at| && at[k] == i;
          assert Balance(keys[i + 1..]) == |at| - 1 - k;
          assert k < |at| - 1 ==> at'[k] == i;
        }
      }
    }
  }

  lemma NotText(b: byte)
    ensures Weight(b) < 1 ==> !IsText(b)
  {
  }

  lemma LeftAfterControl(keys: seq<byte>, line: seq<byte>, at: seq<nat>, b: byte)
    requires Left(keys, line, at) && Balanced(keys, at) && Weight(b) == 0
    ensures Left(keys + [b], line, at)
  {
    hide Balance, IsText, Survives, Weight;
    var more := keys + [b];
    NotText(b);
    NewestSurvives(keys, b);
    forall i | 0 <= i < |more| ensures i in at <==> Survives(more, i) {
      if i < |keys| {
        SurvivesStep(keys, b, i);
        if i in at {
          var k :| 0 <= k < |at| && at[k] == i;
          assert Balance(keys[i + 1..]) == |at| - 1 - k;
        }
      }
    }
  }

  lemma BalancedMore(keys: seq<byte>, at: seq<nat>, b: byte)
    requires Balanced(keys, at)
    ensures Weight(b) == 1 ==> Balanced(keys + [b], at + [|keys|])
    ensures Weight(b) == 0 ==> Balanced(keys + [b], at)
    ensures Weight(b) == -1 && at != [] ==> Balanced(keys + [b], at[..|at| - 1])
    ensures at == [] && Weight(b) <= 0 ==> Balanced(keys + [b], at)
  {
    hide Balance, Weight;
    var more := keys + [b];
    forall k | 0 <= k < |at| ensures Balance(more[at[k] + 1..]) == |at| - 1 - k + Weight(b) {
      BalanceSnoc(keys[at[k] + 1..], b);
      assert more[at[k] + 1..] == keys[at[k] + 1..] + [b];
    }
    NoKeysBalance();
    assert more[|keys| + 1..] == [];
  }

  lemma NoKeysBalance()
    ensures Balance([]) == 0
  {
  }

  lemma {:induction false} LineWithinText(keys: seq<byte>)
    ensures |Edited(keys)| <= TextCount(keys)
    decreases |keys|
  {
    if keys != [] {
      LineWithinText(keys[..|keys| - 1]);
    }
  }

  lemma WeightMeans(b: byte)
    ensures (Weight(b) == 1 <==> IsText(b)) && (Weight(b) == -1 <==> b == 0x08 || b == 0x7F) && -1 <= Weight(b) <= 1
    ensures IsText(b) <==> b >= 0x20 && b != 0x7F
  {
  }

  /** As long as not more than 4096 bytes of text are pressed: what is left of the keys is the text that no erasure
      has reached, in order. */
  lemma {:induction false} EditedExactly(keys: seq<byte>) returns (at: seq<nat>)
    requires TextCount(keys) <= 4096
    ensures Left(keys, Edited(keys), at) && Balanced(keys, at)
    decreases |keys|
  {
    hide Edited, TextCount, Weight, IsText, Left, Balanced, Balance, Survives;
    if keys == [] {
      at := [];
      NothingLeft();
    } else {
      var n := |keys| - 1;
      var first, b := keys[..n], keys[n];
      assert keys == first + [b];
      BalanceSnoc(first, b);
      at := EditedExactly(first);
      at := OneMoreKey(first, b, at);
    }
  }

  lemma NothingLeft()
    ensures Left([], Edited([]), []) && Balanced([], [])
  {
  }

  lemma OneMoreKey(keys: seq<byte>, b: byte, at: seq<nat>) returns (at': seq<nat>)
    requires Left(keys, Edited(keys), at) && Balanced(keys, at) && TextCount(keys + [b]) <= 4096
    ensures Left(keys + [b], Edited(keys + [b]), at') && Balanced(keys + [b], at')
  {
    hide Edited, TextCount, Weight, IsText, Balanced, Balance, Survives;
    assert |Edited(keys)| == |at|;
    hide Left;
    WeightMeans(b);
    EditedSnoc(keys, b);
    BalanceSnoc(keys, b);
    LineWithinText(keys);
    BalancedMore(keys, at, b);
    if IsText(b) {
      at' := at + [|keys|];
      LeftAfterText(keys, Edited(keys), at, b);
    } else if Weight(b) == 0 {
      at' := at;
      LeftAfterControl(keys, Edited(keys), at, b);
    } else {
      at' := if at == [] then at else at[..|at| - 1];
      LeftAfterErasure(keys, Edited(keys), at, b);
    }
  }

  // ---------------------------------------------------------------------------
  // Plain typing
  // ---------------------------------------------------------------------------

  /** Text, without control bytes. */
  predicate Typed(text: seq<byte>) {
    forall k :: 0 <= k < |text| ==> text[k] >= 0x20 && text[k] != 0x7F
  }

  lemma {:induction false} TypingFrom(text: seq<byte>, end: byte, rest: seq<byte>, buf: seq<byte>, echo: seq<byte>)
    requires Typed(text) && (end == 0x0D || end == 0x0A) && |buf| + |text| <= 4096
    ensures Last(Line(text + [end] + rest, buf, echo)) == Line([end] + rest, buf + text, echo + text)
    decreases |text|
  {
    var l := Line(text + [end] + rest, buf, echo);
    LastUnfolds(l);
    hide Last;
    if text == [] {
      assert l.input == [end] + rest && buf + text == buf && echo + text == echo;
    } else {
      var b, more := text[0], text[1..];
      assert l.input[1..] == more + [end] + rest;
      assert buf + [b] + more == buf + text && echo + [b] + more == echo + text;
      TypingFrom(more, end, rest, buf + [b], echo + [b]);
    }
  }

  /** Text of at most 4096 bytes and CR or LF: the line is the text, what follows stays unread, and the caller has
      seen the text and CRLF. */
  lemma TypedLine(text: seq<byte>, end: byte, rest: seq<byte>)
    requires Typed(text) && (end == 0x0D || end == 0x0A) && |text| <= 4096
    ensures LineOutcome(text + [end] + rest) == Outcome(Some(text), rest, text + [0x0D, 0x0A])
  {
    TypingFrom(text, end, rest, [], []);
    assert [] + text == text;
    var s := [end] + rest;
    assert s[1..] == rest;
    hide Last;
  }

  // ---------------------------------------------------------------------------
  // Keys
  // ---------------------------------------------------------------------------

  /** A control byte that is no key, or an escape sequence. */
  predicate Passed(t: Token) {
    t.Plain? ==> (t.b < 0x20 && t.b != 0x0D && t.b != 0x0A) || t.b == 0x7F
  }

  /** The next key is the first byte that is text, CR or LF; what follows it stays unread. */
  lemma {:induction false} KeyExactly(head: seq<Token>, key: byte, rest: seq<byte>)
    requires AllLegal(head) && forall k :: 0 <= k < |head| ==> Passed(head[k])
    requires (key >= 0x20 && key != 0x7F) || key == 0x0D || key == 0x0A
    ensures PullKey(Text(head) + [key] + rest) == (Some(key), rest)
  {
    hide Legal, Encode, Text, Pull;
    if head == [] {
      assert Text(head) + [key] + rest == Encode(Plain(key)) + rest by { KeyAlone(key, rest); }
      KeyIsLegal(key);
      TokenPulled(Plain(key), rest);
    } else {
      var s := Text(head[1..]) + [key] + rest;
      assert Text(head) + [key] + rest == Encode(head[0]) + s by {
        TextCons(head[0], head[1..]);
        assert head == [head[0]] + head[1..];
      }
      TokenPulled(head[0], s);
      KeyExactly(head[1..], key, rest);
    }
  }

  lemma KeyAlone(key: byte, rest: seq<byte>)
    ensures Text([]) + [key] + rest == Encode(Plain(key)) + rest
  {
  }

  lemma KeyIsLegal(key: byte)
    requires (key >= 0x20 && key != 0x7F) || key == 0x0D || key == 0x0A
    ensures Legal(Plain(key))
  {
  }
}
