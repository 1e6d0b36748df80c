/** The three registries a caller's session goes through: presence, node numbers and the who's-online
    roster. Each method body is one region under the registry's lock. */
module Registries {
  import opened Bytes

  // ---------------------------------------------------------------------------
  // Presence: one live session per handle, newest wins
  // ---------------------------------------------------------------------------

  /** A session's registration; `owner` is the session its close function disconnects. */
  datatype Token = Token(id: nat, owner: nat)

  datatype PresenceState = PresenceState(cur: map<string, Token>, issued: nat) {
    /** The lock region of Enter: the new token, and the one it replaces. */
    function Enter(handle: string, owner: nat): (PresenceState, Option<Token>) {
      (PresenceState(cur[handle := Token(issued + 1, owner)], issued + 1),
       if handle in cur then Some(cur[handle]) else None)
    }

    function Leave(handle: string, id: nat): PresenceState {
      if handle in cur && cur[handle].id == id then PresenceState(cur - {handle}, issued) else this
    }
  }

  class Presence {
    var cur: map<string, Token>
    var issued: nat
    var closed: seq<nat>  // the sessions disconnected, in order

    function Now(): PresenceState
      reads this
    {
      PresenceState(cur, issued)
    }

    constructor ()
      ensures Now() == PresenceState(map[], 0) && closed == []
    {
      cur, issued, closed := map[], 0, [];
    }

    method Enter(handle: string, owner: nat) returns (id: nat)
      modifies this
      ensures var (next, prev) := old(Now()).Enter(handle, owner);
              && Now() == next && id == next.issued
              && closed == old(closed) + if prev == None then [] else [prev.value.owner]
    {
      issued := issued + 1;
      id := issued;
      var prev := if handle in cur then Some(cur[handle]) else None;
      cur := cur[handle := Token(id, owner)];
      if prev != None {
        closed := closed + [prev.value.owner];
      }
    }

    method Leave(handle: string, id: nat)
      modifies this`cur
      ensures Now() == old(Now()).Leave(handle, id)
    {
      if handle in cur && cur[handle].id == id {
        cur := cur - {handle};
      }
    }
  }

  // ---------------------------------------------------------------------------
  // Node numbers
  // ---------------------------------------------------------------------------

  /** `n` is what Acquire hands out: the least free number from 1 to `max`, or 0 if there is none. */
  ghost predicate Allotted(used: set<nat>, max: nat, n: nat) {
    && (n == 0 ==> forall k :: 1 <= k <= max ==> k in used)
    && (n > 0 ==> n <= max && n !in used && forall k :: 1 <= k < n ==> k in used)
  }

  lemma AllottedUnique(used: set<nat>, max: nat, m: nat, n: nat)
    requires Allotted(used, max, m) && Allotted(used, max, n)
    ensures m == n
  {
  }

  class NodePool {
    var used: set<nat>
    const max: nat

    constructor (max: int)
      ensures used == {} && this.max == if max <= 0 then 64 else max
    {
      used := {};
      this.max := if max <= 0 then 64 else max;
    }

    method Acquire() returns (n: nat)
      modifies this`used
      ensures Allotted(old(used), max, n)
      ensures used == old(used) + if n == 0 then {} else {n}
    {
      for k := 1 to max + 1
        invariant used == old(used)
        invariant forall j :: 1 <= j < k ==> j in used
      {
        if k !in used {
          used := used + {k};
          return k;
        }
      }
      return 0;
    }

    method Release(n: nat)
      modifies this`used
      ensures used == old(used) - {n}
    {
      used := used - {n};
    }
  }

  // ---------------------------------------------------------------------------
  // The roster
  // ---------------------------------------------------------------------------

  datatype Online = Online(node: nat, handle: string, ip: string, transport: string, since: int)

  /** Every entry is filed under its own node. */
  ghost predicate Filed(byNS: map<nat, Online>) {
    forall n :: n in byNS ==> byNS[n].node == n
  }

  /** A snapshot sorted by node, each entry once. */
  ghost predicate SortedSnapshot(out: seq<Online>, byNS: map<nat, Online>) {
    && (forall i, j :: 0 <= i < j < |out| ==> out[i].node < out[j].node)
    && (forall i :: 0 <= i < |out| ==> out[i].node in byNS && byNS[out[i].node] == out[i])
    && (forall n :: n in byNS ==> byNS[n] in out)
  }

  class Roster {
    var byNS: map<nat, Online>

    constructor ()
      ensures byNS == map[]
    {
      byNS := map[];
    }

    method Join(node: nat, handle: string, ip: string, transport: string, now: int)
      modifies this
      ensures byNS == old(byNS)[node := Online(node, handle, ip, transport, now)]
      ensures old(Filed(byNS)) ==> Filed(byNS)
    {
      byNS := byNS[node := Online(node, handle, ip, transport, now)];
    }

    method Leave(node: nat)
      modifies this
      ensures byNS == old(byNS) - {node}
      ensures old(Filed(byNS)) ==> Filed(byNS)
    {
      byNS := byNS - {node};
    }

    /** Everyone online, in whatever order the map gives them, and then sorted by node. */
    method List() returns (out: seq<Online>)
      requires Filed(byNS)
      ensures SortedSnapshot(out, byNS)
    {
      out := [];
      var left := byNS.Keys;
      while left != {}
        invariant left <= byNS.Keys
        invariant Snapshot(out, byNS, byNS.Keys - left)
        decreases left
      {
        var n :| n in left;
        out := out + [byNS[n]];
        left := left - {n};
      }
      out := SortByNode(out, byNS);
    }

    /** The length of the listing there would be at this moment. */
    method Count() returns (n: nat)
      ensures n == |byNS|
      ensures Filed(byNS) ==> forall out :: SortedSnapshot(out, byNS) ==> |out| == n
    {
      n := |byNS|;
      forall out | Filed(byNS) && SortedSnapshot(out, byNS) ensures |out| == n {
        SnapshotSize(out, byNS);
      }
    }
  }

  function Nodes(out: seq<Online>): set<nat> {
    set i | 0 <= i < |out| :: out[i].node
  }

  lemma {:induction false} NodesCounted(out: seq<Online>)
    requires forall i, j :: 0 <= i < j < |out| ==> out[i].node < out[j].node
    ensures |Nodes(out)| == |out|
  {
    var n := |out|;
    if n > 0 {
      NodesCounted(out[..n - 1]);
      assert Nodes(out) == Nodes(out[..n - 1]) + {out[n - 1].node};
    }
  }

  /** A listing of a roster has as many entries as the roster. */
  lemma SnapshotSize(out: seq<Online>, byNS: map<nat, Online>)
    requires SortedSnapshot(out, byNS)
    requires Filed(byNS)
    ensures |out| == |byNS|
  {
    NodesCounted(out);
    forall n | n in byNS ensures n in Nodes(out) {
      var i :| 0 <= i < |out| && out[i] == byNS[n];
    }
    assert Nodes(out) == byNS.Keys;
    assert |byNS| == |byNS.Keys|;
  }

  /** The entries of these nodes, in any order, each once. */
  ghost predicate Snapshot(out: seq<Online>, byNS: map<nat, Online>, nodes: set<nat>) {
    && (forall i, j :: 0 <= i < j < |out| ==> out[i].node != out[j].node)
    && (forall i :: 0 <= i < |out| ==> out[i].node in nodes && out[i].node in byNS && byNS[out[i].node] == out[i])
    && (forall n :: n in nodes && n in byNS ==> byNS[n] in out)
  }

  ghost predicate Ascending(s: seq<Online>) {
    forall i, j :: 0 <= i < j < |s| ==> s[i].node < s[j].node
  }

  method Insert(s: seq<Online>, x: Online) returns (out: seq<Online>)
    requires Ascending(s) && forall i :: 0 <= i < |s| ==> s[i].node != x.node
    ensures Ascending(out)
    ensures forall y :: y in out <==> y in s || y == x
  {
    var at := 0;
    while at < |s| && s[at].node < x.node
      invariant 0 <= at <= |s|
      invariant forall i :: 0 <= i < at ==> s[i].node < x.node
    {
      at := at + 1;
    }
    out := s[..at] + [x] + s[at..];
    assert s == s[..at] + s[at..];
  }

  method SortByNode(s: seq<Online>, ghost byNS: map<nat, Online>) returns (out: seq<Online>)
    requires Snapshot(s, byNS, byNS.Keys)
    ensures SortedSnapshot(out, byNS)
  {
    out := [];
    for k := 0 to |s|
      invariant Ascending(out)
      invariant forall x :: x in out <==> x in s[..k]
    {
      forall i | 0 <= i < |out| ensures out[i].node != s[k].node {
        assert out[i] in s[..k];
      }
      out := Insert(out, s[k]);
      assert s[..k + 1] == s[..k] + [s[k]];
    }
    assert s[..|s|] == s;
    forall i | 0 <= i < |out| ensures out[i].node in byNS && byNS[out[i].node] == out[i] {
      assert out[i] in out;
    }
    forall n | n in byNS ensures byNS[n] in out {
      assert byNS[n] in s;
    }
  }
}
