/** A caller's connection, as the code that drives it sees it. */
module Wires {
  import opened Bytes

  /** The value of a connection: `input` is what the peer will still deliver before the stream ends,
      `output` everything written so far, `room` how many further writes succeed before it breaks. */
  datatype View = View(input: seq<byte>, output: seq<byte>, room: nat) {
    function Next(): View
      requires input != []
    {
      this.(input := input[1..])
    }

    function Put(p: seq<byte>): View
      requires room > 0
    {
      this.(output := output + p, room := room - 1)
    }

    /** A write whose error the caller ignores: a broken connection swallows it. */
    function PutIfOpen(p: seq<byte>): View {
      if room > 0 then Put(p) else this
    }
  }

  /** One result of a connection's Read: bytes, an error, or both. */
  datatype RawRead = RawRead(bytes: seq<byte>, err: bool)

  /** The bytes a series of reads brings. */
  function Flatten(raw: seq<RawRead>): seq<byte> {
    if raw == [] then [] else raw[0].bytes + Flatten(raw[1..])
  }

  class Wire {
    var input: seq<byte>
    var output: seq<byte>
    var room: nat

    function Now(): View
      reads this
    {
      View(input, output, room)
    }

    constructor (v: View)
      ensures Now() == v
    {
      input, output, room := v.input, v.output, v.room;
    }

    /** None is the read error at the end of the stream. */
    method ReadByte() returns (b: Option<byte>)
      modifies this
      ensures old(input) == [] ==> b == None && Now() == old(Now())
      ensures old(input) != [] ==> b == Some(old(input)[0]) && Now() == old(Now()).Next()
    {
      if input == [] {
        b := None;
      } else {
        b := Some(input[0]);
        input := input[1..];
      }
    }

    /** Reads exactly `n` bytes, or uses up a stream that is too short and fails. */
    method ReadFull(n: nat) returns (d: Option<seq<byte>>)
      modifies this
      ensures |old(input)| < n ==> d == None && Now() == old(Now()).(input := [])
      ensures |old(input)| >= n ==>
        d == Some(old(input)[..n]) && Now() == old(Now()).(input := old(input)[n..])
    {
      if |input| < n {
        d, input := None, [];
      } else {
        d, input := Some(input[..n]), input[n..];
      }
    }

    /** A failing write puts nothing on the wire. */
    method Write(p: seq<byte>) returns (ok: bool)
      modifies this
      ensures ok == (old(room) > 0)
      ensures Now() == old(Now()).PutIfOpen(p)
    {
      ok := room > 0;
      if ok {
        output, room := output + p, room - 1;
      }
    }
  }
}
