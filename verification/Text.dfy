/** Facts about splitting, searching and trimming text. */
module Text {
  import opened Bytes

  /** The bytes of ASCII text. */
  function Ascii(s: string): (r: seq<byte>)
    ensures |r| == |s|
  {
    seq(|s|, k requires 0 <= k < |s| => if s[k] < '\U{80}' then s[k] as int as byte else 0)
  }

  predicate Plain(b: byte) {
    0x21 <= b < 0x7F
  }

  lemma SpaceNotPlain(w: seq<byte>)
    requires IsSpace(w)
    ensures w != [] && !Plain(w[0]) && !Plain(w[|w| - 1])
  {
  }

  lemma HeadNotSpace(s: seq<byte>, n: nat)
    requires 1 <= n <= |s| && Plain(s[0])
    ensures !IsSpace(s[..n])
  {
    hide IsSpace, Plain;
    if IsSpace(s[..n]) {
      SpaceNotPlain(s[..n]);
    }
  }

  lemma TailNotSpace(s: seq<byte>, n: nat)
    requires 1 <= n <= |s| && Plain(s[|s| - 1])
    ensures !IsSpace(s[|s| - n..])
  {
    hide IsSpace, Plain;
    if IsSpace(s[|s| - n..]) {
      SpaceNotPlain(s[|s| - n..]);
    }
  }

  lemma LeftStays(s: seq<byte>)
    requires s != [] && Plain(s[0])
    ensures TrimLeft(s) == s
  {
    hide IsSpace, Plain;
    HeadNotSpace(s, 1);
    if |s| >= 2 { HeadNotSpace(s, 2); }
    if |s| >= 3 { HeadNotSpace(s, 3); }
    assert HeadSpace(s) == 0;
  }

  lemma NoTailSpace(s: seq<byte>)
    requires s != [] && Plain(s[|s| - 1])
    ensures TailSpace(s) == 0
  {
    hide IsSpace, Plain;
    var n := TailSpace(s);
    if n > 0 {
      TailNotSpace(s, n);
    }
  }

  lemma RightStops(s: seq<byte>)
    requires TailSpace(s) == 0
    ensures TrimRight(s) == s
  {
    hide TailSpace;
  }

  lemma EndsPlain(s: seq<byte>)
    requires s != [] && Plain(s[0]) && Plain(s[|s| - 1])
    ensures TrimSpace(s) == s
  {
    hide TrimLeft, TrimRight, Plain;
    LeftStays(s);
    NoTailSpace(s);
    RightStops(s);
  }

  lemma NothingTrims()
    ensures TrimSpace([]) == []
  {
  }

  // ---------------------------------------------------------------------------
  // What trimming takes away
  // ---------------------------------------------------------------------------

  /** The Unicode characters with property White_Space. */
  predicate WhiteSpace(cp: bv16) {
    || 0x09 <= cp <= 0x0D || cp == 0x20 || cp == 0x85 || cp == 0xA0 || cp == 0x1680
    || 0x2000 <= cp <= 0x200A || cp == 0x2028 || cp == 0x2029 || cp == 0x202F || cp == 0x205F || cp == 0x3000
  }

  /** The UTF-8 encoding of a character below 0x10000. */
  function Utf8(cp: bv16): seq<byte> {
    if cp < 0x80 then [Lo(cp)]
    else if cp < 0x800 then [Lo(0xC0 | (cp >> 6)), Lo(0x80 | (cp & 0x3F))]
    else [Lo(0xE0 | (cp >> 12)), Lo(0x80 | ((cp >> 6) & 0x3F)), Lo(0x80 | (cp & 0x3F))]
  }

  lemma SpacesEncoded(cp: bv16)
    ensures IsSpace(Utf8(cp)) <==> WhiteSpace(cp)
  {
  }

  /** Every word that trimming takes for a space encodes one. */
  lemma SpaceDecoded(w: seq<byte>) returns (cp: bv16)
    requires IsSpace(w)
    ensures w == Utf8(cp) && WhiteSpace(cp)
  {
    if |w| == 1 {
      cp := Word(w[0]);
    } else if |w| == 2 {
      cp := Word(w[1]);
    } else {
      cp := ((Word(w[0]) & 0x0F) << 12) | ((Word(w[1]) & 0x3F) << 6) | (Word(w[2]) & 0x3F);
    }
  }

  ghost predicate AllSpaces(words: seq<seq<byte>>) {
    forall k :: 0 <= k < |words| ==> IsSpace(words[k])
  }

  function Concat(words: seq<seq<byte>>): seq<byte> {
    if words == [] then [] else words[0] + Concat(words[1..])
  }

  lemma {:induction false} ConcatSnoc(words: seq<seq<byte>>, w: seq<byte>)
    ensures Concat(words + [w]) == Concat(words) + w
  {
    if words == [] {
      assert words + [w] == [w] && [w][1..] == [];
    } else {
      assert (words + [w])[1..] == words[1..] + [w];
      ConcatSnoc(words[1..], w);
    }
  }

  predicate EndsWith(s: seq<byte>, w: seq<byte>) {
    |w| <= |s| && s[|s| - |w|..] == w
  }

  /** No white space stands at either end. */
  ghost predicate Bare(s: seq<byte>) {
    forall w :: IsSpace(w) ==> !(w <= s) && !EndsWith(s, w)
  }

  lemma HeadIsSpace(s: seq<byte>)
    ensures var n := HeadSpace(s);
            if n > 0 then IsSpace(s[..n]) else forall w :: IsSpace(w) ==> !(w <= s)
  {
    forall w | IsSpace(w) && w <= s ensures HeadSpace(s) > 0 {
      assert w == s[..|w|];
    }
  }

  lemma TailIsSpace(s: seq<byte>)
    ensures var n := TailSpace(s);
            if n > 0 then IsSpace(s[|s| - n..]) else forall w :: IsSpace(w) ==> !EndsWith(s, w)
  {
  }

  lemma LeftStep(s: seq<byte>)
    ensures TrimLeft(s) == if HeadSpace(s) == 0 then s else TrimLeft(s[HeadSpace(s)..])
  {
    hide HeadSpace;
  }

  lemma RightStep(s: seq<byte>)
    ensures TrimRight(s) == if TailSpace(s) == 0 then s else TrimRight(s[..|s| - TailSpace(s)])
  {
    hide TailSpace;
  }

  lemma {:induction false} LeftTrims(s: seq<byte>) returns (words: seq<seq<byte>>)
    ensures AllSpaces(words) && s == Concat(words) + TrimLeft(s) && HeadSpace(TrimLeft(s)) == 0
    decreases |s|
  {
    hide IsSpace, HeadSpace, TrimLeft;
    var n := HeadSpace(s);
    LeftStep(s);
    if n == 0 {
      words := [];
    } else {
      HeadIsSpace(s);
      var more := LeftTrims(s[n..]);
      words := [s[..n]] + more;
      assert words[1..] == more;
      assert s == s[..n] + s[n..];
    }
  }

  lemma {:induction false} RightTrims(s: seq<byte>) returns (words: seq<seq<byte>>)
    ensures AllSpaces(words) && s == TrimRight(s) + Concat(words) && TailSpace(TrimRight(s)) == 0
    decreases |s|
  {
    hide IsSpace, TailSpace, TrimRight;
    var n := TailSpace(s);
    RightStep(s);
    if n == 0 {
      words := [];
    } else {
      TailIsSpace(s);
      var most := RightTrims(s[..|s| - n]);
      words := most + [s[|s| - n..]];
      ConcatSnoc(most, s[|s| - n..]);
      assert s == s[..|s| - n] + s[|s| - n..];
    }
  }

  /** Trimming takes off white space at both ends, all of it, and nothing else. */
  lemma TrimExactly(s: seq<byte>) returns (before: seq<seq<byte>>, after: seq<seq<byte>>)
    ensures AllSpaces(before) && AllSpaces(after)
    ensures s == Concat(before) + TrimSpace(s) + Concat(after) && Bare(TrimSpace(s))
  {
    hide IsSpace, HeadSpace, TailSpace, TrimLeft, TrimRight, AllSpaces;
    before := LeftTrims(s);
    var t := TrimLeft(s);
    after := RightTrims(t);
    HeadIsSpace(t);
    TailIsSpace(TrimSpace(s));
    forall w | IsSpace(w) ensures !(w <= TrimSpace(s)) {
      assert w <= TrimSpace(s) ==> w <= t;
    }
  }

  // ---------------------------------------------------------------------------
  // Blank text
  // ---------------------------------------------------------------------------

  predicate Blank(s: seq<byte>) {
    TrimSpace(s) == []
  }

  lemma HeadOfLonger(s: seq<byte>, t: seq<byte>)
    requires HeadSpace(s) > 0
    ensures HeadSpace(s + t) == HeadSpace(s)
  {
    hide IsSpace;
    assert (s + t)[..1] == s[..1];
    assert |s| >= 2 ==> (s + t)[..2] == s[..2];
    assert |s| >= 3 ==> (s + t)[..3] == s[..3];
  }

  /** Text that trims to nothing from the right begins with a space. */
  lemma {:induction false} RightBlank(s: seq<byte>)
    requires s != [] && TrimRight(s) == []
    ensures HeadSpace(s) > 0
    decreases |s|
  {
    hide IsSpace, HeadSpace, TailSpace, TrimRight;
    var n := TailSpace(s);
    RightStep(s);
    TailIsSpace(s);
    if n == |s| {
      assert s[0..] <= s;
      HeadIsSpace(s);
    } else {
      var p := s[..|s| - n];
      RightBlank(p);
      HeadOfLonger(p, s[|s| - n..]);
      assert s == p + s[|s| - n..];
    }
  }

  lemma BlankFromLeft(s: seq<byte>)
    requires Blank(s)
    ensures TrimLeft(s) == []
  {
    hide IsSpace, HeadSpace;
    var words := LeftTrims(s);
    if TrimLeft(s) != [] {
      RightBlank(TrimLeft(s));
    }
  }

  lemma {:induction false} LeftBlank(blank: seq<byte>, s: seq<byte>)
    requires TrimLeft(blank) == []
    ensures TrimLeft(blank + s) == TrimLeft(s)
    decreases |blank|
  {
    hide IsSpace, HeadSpace, TrimLeft;
    LeftStep(blank);
    LeftStep(blank + s);
    if blank == [] {
      assert blank + s == s;
    } else {
      var n := HeadSpace(blank);
      HeadOfLonger(blank, s);
      assert (blank + s)[n..] == blank[n..] + s;
      LeftBlank(blank[n..], s);
    }
  }

  lemma BlankIgnored(blank: seq<byte>, s: seq<byte>)
    requires Blank(blank)
    ensures TrimSpace(blank + s) == TrimSpace(s)
  {
    hide TrimLeft, TrimRight;
    BlankFromLeft(blank);
    LeftBlank(blank, s);
  }

  // ---------------------------------------------------------------------------
  // Splitting
  // ---------------------------------------------------------------------------

  lemma {:induction false} SplitFirst(t: seq<byte>, sep: byte, rest: seq<byte>)
    requires sep !in t
    ensures Split(t + [sep] + rest, sep) == [t] + Split(rest, sep)
  {
    var s := t + [sep] + rest;
    if t == [] {
      assert s[0] == sep && s[1..] == rest;
    } else {
      assert s[0] == t[0] && s[1..] == t[1..] + [sep] + rest;
      SplitFirst(t[1..], sep, rest);
      assert [t[0]] + t[1..] == t;
    }
  }

  lemma {:induction false} IndexOfFirst(x: seq<byte>, b: byte, y: seq<byte>)
    requires b !in x
    ensures IndexOf(x + [b] + y, b) == |x|
  {
    if x == [] {
      assert (x + [b] + y)[0] == b;
    } else {
      assert (x + [b] + y)[1..] == x[1..] + [b] + y;
      IndexOfFirst(x[1..], b, y);
    }
  }

  lemma {:induction false} SplitWhole(s: seq<byte>, sep: byte)
    requires sep !in s
    ensures Split(s, sep) == [s]
  {
    if s != [] {
      SplitWhole(s[1..], sep);
      assert [s[0]] + s[1..] == s;
    }
  }

  function JoinWith(pieces: seq<seq<byte>>, sep: byte): seq<byte> {
    if pieces == [] then []
    else if |pieces| == 1 then pieces[0]
    else pieces[0] + [sep] + JoinWith(pieces[1..], sep)
  }

  /** Splitting undoes joining; nothing at all reads as one empty piece. */
  lemma {:induction false} SplitJoined(pieces: seq<seq<byte>>, sep: byte)
    requires forall k :: 0 <= k < |pieces| ==> sep !in pieces[k]
    ensures Split(JoinWith(pieces, sep), sep) == if pieces == [] then [[]] else pieces
  {
    if |pieces| == 1 {
      SplitWhole(pieces[0], sep);
    } else if |pieces| > 1 {
      SplitJoined(pieces[1..], sep);
      SplitFirst(pieces[0], sep, JoinWith(pieces[1..], sep));
    }
  }

  /** Joining undoes splitting, whose pieces are free of the separator. */
  lemma {:induction false} SplitRejoins(s: seq<byte>, sep: byte)
    ensures var pieces := Split(s, sep);
            && JoinWith(pieces, sep) == s
            && forall k :: 0 <= k < |pieces| ==> sep !in pieces[k]
    decreases |s|
  {
    if s != [] {
      SplitRejoins(s[1..], sep);
      var rest := Split(s[1..], sep);
      var pieces := Split(s, sep);
      if s[0] == sep {
        assert pieces[1..] == rest;
        assert [] + [sep] + s[1..] == s;
      } else {
        assert pieces[1..] == rest[1..];
        assert [s[0]] + s[1..] == s;
      }
    }
  }

  lemma {:induction false} JoinedHolds(pieces: seq<seq<byte>>, sep: byte, b: byte)
    requires b != sep && forall k :: 0 <= k < |pieces| ==> b !in pieces[k]
    ensures b !in JoinWith(pieces, sep)
  {
    if |pieces| > 1 {
      JoinedHolds(pieces[1..], sep, b);
    }
  }
}
