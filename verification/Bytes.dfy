/** Bytes, and the few stock operations on byte strings that several components share. */
module Bytes {
  /** Go's `byte`: eight bits, arithmetic modulo 256, unsigned comparison. */
  type byte = bv8

  datatype Option<+T> = None | Some(value: T)

  function Repeat<T>(x: T, n: nat): (r: seq<T>)
    ensures |r| == n
    ensures forall k :: 0 <= k < n ==> r[k] == x
  {
    seq(n, _ => x)
  }

  // ---------------------------------------------------------------------------
  // Sixteen-bit words
  // ---------------------------------------------------------------------------

  function Word(b: byte): bv16 {
    b as bv16
  }

  /** A byte moved into the high half of the register. */
  function Up(b: byte): bv16 {
    Word(b) << 8
  }

  /** The big-endian reading of two bytes. */
  function Join(hi: byte, lo: byte): bv16 {
    Up(hi) | Word(lo)
  }

  function Hi(c: bv16): byte {
    (c >> 8) as byte
  }

  function Lo(c: bv16): byte {
    (c & 0xff) as byte
  }

  lemma JoinSplit(c: bv16)
    ensures Join(Hi(c), Lo(c)) == c
  {
  }

  lemma JoinInjective(a: byte, b: byte, c: byte, d: byte)
    requires Join(a, b) == Join(c, d)
    ensures a == c && b == d
  {
  }

  // ---------------------------------------------------------------------------
  // Splitting and trimming, as Go's strings package does them
  // ---------------------------------------------------------------------------

  /** The pieces of `s` between the separators: one more piece than there are separators. */
  function Split(s: seq<byte>, sep: byte): (pieces: seq<seq<byte>>)
    ensures |pieces| >= 1
  {
    if s == [] then [[]]
    else
      var rest := Split(s[1..], sep);
      if s[0] == sep then [[]] + rest else [[s[0]] + rest[0]] + rest[1..]
  }

  /** The index of the first `b` in `s`, or |s| if there is none. */
  function IndexOf(s: seq<byte>, b: byte): (i: nat)
    ensures i <= |s|
    ensures forall k :: 0 <= k < i ==> s[k] != b
    ensures i < |s| ==> s[i] == b
  {
    if s == [] || s[0] == b then 0 else 1 + IndexOf(s[1..], b)
  }

  /** The UTF-8 encodings of the white-space characters. */
  predicate IsSpace(w: seq<byte>) {
    || (|w| == 1 && (0x09 <= w[0] <= 0x0D || w[0] == 0x20))
    || (|w| == 2 && w[0] == 0xC2 && (w[1] == 0x85 || w[1] == 0xA0))
    || (|w| == 3 && w[0] == 0xE1 && w[1] == 0x9A && w[2] == 0x80)
    || (|w| == 3 && w[0] == 0xE2 && w[1] == 0x80
        && (0x80 <= w[2] <= 0x8A || w[2] == 0xA8 || w[2] == 0xA9 || w[2] == 0xAF))
    || (|w| == 3 && w[0] == 0xE2 && w[1] == 0x81 && w[2] == 0x9F)
    || (|w| == 3 && w[0] == 0xE3 && w[1] == 0x80 && w[2] == 0x80)
  }

  /** The length of the white-space character that `s` begins with, or 0. */
  function HeadSpace(s: seq<byte>): (n: nat)
    ensures n <= |s|
  {
    if |s| >= 1 && IsSpace(s[..1]) then 1
    else if |s| >= 2 && IsSpace(s[..2]) then 2
    else if |s| >= 3 && IsSpace(s[..3]) then 3
    else 0
  }

  /** The length of the white-space character that `s` ends with, or 0. */
  function TailSpace(s: seq<byte>): (n: nat)
    ensures n <= |s|
  {
    if |s| >= 1 && IsSpace(s[|s| - 1..]) then 1
    else if |s| >= 2 && IsSpace(s[|s| - 2..]) then 2
    else if |s| >= 3 && IsSpace(s[|s| - 3..]) then 3
    else 0
  }

  function TrimLeft(s: seq<byte>): seq<byte> {
    var n := HeadSpace(s);
    if n == 0 then s else TrimLeft(s[n..])
  }

  function TrimRight(s: seq<byte>): seq<byte> {
    var n := TailSpace(s);
    if n == 0 then s else TrimRight(s[..|s| - n])
  }

  function TrimSpace(s: seq<byte>): seq<byte> {
    TrimRight(TrimLeft(s))
  }
}
