/** Any number of SSH sessions going through the registries in the handler's order, interleaved lock
    region by lock region. */
module Lifecycle {
  import opened Bytes
  import opened Registries

  /** Where a session is in the handler. `Entering` has registered and still has to disconnect the session
      it replaced, if any; `Refused` found no free node; the last three run the deferred calls. */
  datatype Phase =
    | Arrived
    | Entering(prev: Option<Token>)
    | Present
    | Refused
    | Housed
    | OnRoster
    | OffRoster
    | Released
    | Gone

  datatype Sess = Sess(handle: string, phase: Phase, id: nat, node: nat)

  /** `closed` counts how often each session has been disconnected by a newer login. */
  datatype System = System(
    presence: PresenceState,
    used: set<nat>,
    roster: map<nat, Online>,
    sess: map<nat, Sess>,
    closed: multiset<nat>
  )

  const EMPTY := System(PresenceState(map[], 0), {}, map[], map[], multiset{})

  datatype Op =
    | Login(handle: string)                                // a session comes up, its caller authenticated
    | Enter
    | Displace
    | Acquire(n: nat)
    | Join(ip: string, transport: string, now: int)
    | LeaveRoster
    | Release
    | LeavePresence

  /** What session `s` may do next. */
  ghost predicate Enabled(st: System, max: nat, s: nat, op: Op) {
    if op.Login? then s !in st.sess
    else
      && s in st.sess
      && match op
         case Enter => st.sess[s].phase.Arrived?
         case Displace => st.sess[s].phase.Entering?
         case Acquire(n) => st.sess[s].phase.Present? && Allotted(st.used, max, n)
         case Join(_, _, _) => st.sess[s].phase.Housed?
         case LeaveRoster => st.sess[s].phase.OnRoster?
         case Release => st.sess[s].phase.OffRoster?
         case LeavePresence => st.sess[s].phase.Released? || st.sess[s].phase.Refused?
         case Login(_) => true
  }

  function Next(st: System, s: nat, op: Op): System
    requires op.Login? || s in st.sess
  {
    if op.Login? then st.(sess := st.sess[s := Sess(op.handle, Arrived, 0, 0)])
    else
      var me := st.sess[s];
      match op
      case Enter =>
        var (p, prev) := st.presence.Enter(me.handle, s);
        st.(presence := p, sess := st.sess[s := me.(phase := Entering(prev), id := p.issued)])
      case Displace =>
        var closed := if me.phase.Entering? && me.phase.prev != None
                      then st.closed + multiset{me.phase.prev.value.owner} else st.closed;
        st.(closed := closed, sess := st.sess[s := me.(phase := Present)])
      case Acquire(n) =>
        if n == 0 then st.(sess := st.sess[s := me.(phase := Refused)])
        else st.(used := st.used + {n}, sess := st.sess[s := me.(phase := Housed, node := n)])
      case Join(ip, transport, now) =>
        st.(roster := st.roster[me.node := Online(me.node, me.handle, ip, transport, now)],
            sess := st.sess[s := me.(phase := OnRoster)])
      case LeaveRoster => st.(roster := st.roster - {me.node}, sess := st.sess[s := me.(phase := OffRoster)])
      case Release => st.(used := st.used - {me.node}, sess := st.sess[s := me.(phase := Released)])
      case LeavePresence =>
        st.(presence := st.presence.Leave(me.handle, me.id), sess := st.sess[s := me.(phase := Gone)])
      case Login(_) => st
  }

  ghost predicate IsRun(max: nat, run: seq<System>, moves: seq<(nat, Op)>) {
    && |run| == |moves| + 1 && run[0] == EMPTY
    && forall k :: 0 <= k < |moves| ==>
         && Enabled(run[k], max, moves[k].0, moves[k].1)
         && run[k + 1] == Next(run[k], moves[k].0, moves[k].1)
  }

  // ---------------------------------------------------------------------------
  // Nodes and the roster
  // ---------------------------------------------------------------------------

  predicate HoldsNode(x: Sess) {
    x.phase.Housed? || x.phase.OnRoster? || x.phase.OffRoster?
  }

  /** `s` holds node `n`. */
  ghost predicate Holder(st: System, s: nat, n: nat) {
    s in st.sess && HoldsNode(st.sess[s]) && st.sess[s].node == n
  }

  /** Sessions that hold a node hold different ones, from 1 to `max`, and exactly those are in use. */
  ghost predicate NodesInv(st: System, max: nat) {
    && (forall s: nat, n: nat :: Holder(st, s, n) ==> 1 <= n <= max && n in st.used)
    && (forall s: nat, t: nat, n: nat :: Holder(st, s, n) && Holder(st, t, n) ==> s == t)
    && (forall n: nat :: n in st.used ==> exists s: nat :: Holder(st, s, n))
  }

  /** How one move changes who holds what. */
  lemma HoldersStep(st: System, max: nat, s: nat, op: Op)
    requires Enabled(st, max, s, op)
    ensures var st' := Next(st, s, op);
            && (op.Acquire? && op.n > 0 ==>
                  && st'.used == st.used + {op.n}
                  && (forall t: nat, m: nat :: Holder(st', t, m) <==> Holder(st, t, m) || (t == s && m == op.n))
                  && forall m: nat :: !Holder(st, s, m))
            && (op.Release? ==>
                  && st'.used == st.used - {st.sess[s].node} && Holder(st, s, st.sess[s].node)
                  && forall t: nat, m: nat :: Holder(st', t, m) <==> Holder(st, t, m) && t != s)
            && (!op.Release? && !(op.Acquire? && op.n > 0) ==>
                  st'.used == st.used && forall t: nat, m: nat :: Holder(st', t, m) <==> Holder(st, t, m))
  {
  }

  lemma NodesStep(st: System, max: nat, s: nat, op: Op)
    requires NodesInv(st, max) && Enabled(st, max, s, op)
    ensures NodesInv(Next(st, s, op), max)
  {
    var st' := Next(st, s, op);
    HoldersStep(st, max, s, op);
    assert op.Acquire? && op.n > 0 ==> 1 <= op.n <= max && op.n !in st.used;
    hide Next, Holder, Enabled;
    forall n: nat | n in st'.used ensures exists t: nat :: Holder(st', t, n) {
      if n in st.used {
        var t: nat :| Holder(st, t, n);
        if !(op.Release? && t == s) {
          assert Holder(st', t, n);
        }
      } else {
        assert Holder(st', s, n);
      }
    }
  }

  /** `s` is between Join and Leave on node `n`. */
  ghost predicate Listed(st: System, s: nat, n: nat) {
    s in st.sess && st.sess[s].phase.OnRoster? && st.sess[s].node == n
  }

  /** Entry `n` names its node, and the handle of session `s`. */
  ghost predicate Names(st: System, n: nat, s: nat) {
    && n in st.roster && st.roster[n].node == n
    && s in st.sess && st.roster[n].handle == st.sess[s].handle
  }

  /** The roster lists exactly the sessions between Join and Leave, each under its own node and handle. */
  ghost predicate RosterInv(st: System) {
    && (forall s: nat, n: nat :: Listed(st, s, n) ==> Names(st, n, s))
    && (forall n: nat :: n in st.roster ==> exists s: nat :: Listed(st, s, n))
  }

  lemma ListedStep(st: System, max: nat, s: nat, op: Op)
    requires Enabled(st, max, s, op)
    ensures var st' := Next(st, s, op);
            && (op.Join? ==>
                  && (forall t: nat, m: nat :: Listed(st', t, m) <==> Listed(st, t, m) || (t == s && m == st.sess[s].node))
                  && Holder(st, s, st.sess[s].node) && !Listed(st, s, st.sess[s].node)
                  && Names(st', st.sess[s].node, s)
                  && (forall n: nat, t: nat :: n != st.sess[s].node && Names(st, n, t) ==> Names(st', n, t))
                  && st'.roster.Keys == st.roster.Keys + {st.sess[s].node})
            && (op.LeaveRoster? ==>
                  && (forall t: nat, m: nat :: Listed(st', t, m) <==> Listed(st, t, m) && t != s)
                  && Listed(st, s, st.sess[s].node)
                  && (forall n: nat, t: nat :: n != st.sess[s].node && Names(st, n, t) ==> Names(st', n, t))
                  && st'.roster.Keys == st.roster.Keys - {st.sess[s].node})
            && (!op.Join? && !op.LeaveRoster? ==>
                  && (forall t: nat, m: nat :: Listed(st', t, m) <==> Listed(st, t, m))
                  && (forall n: nat, t: nat :: Names(st, n, t) ==> Names(st', n, t))
                  && st'.roster.Keys == st.roster.Keys)
  {
  }

  lemma ListedHolds(st: System, s: nat, n: nat)
    requires Listed(st, s, n)
    ensures Holder(st, s, n)
  {
  }

  lemma RosterStep(st: System, max: nat, s: nat, op: Op)
    requires NodesInv(st, max) && RosterInv(st) && Enabled(st, max, s, op)
    ensures RosterInv(Next(st, s, op))
  {
    var st' := Next(st, s, op);
    ListedStep(st, max, s, op);
    hide Next, Listed, Names, Holder, Enabled;
    forall t: nat, n: nat | Listed(st', t, n) ensures Names(st', n, t) {
      if t != s || !op.Join? {
        ListedHolds(st, t, n);
        if op.LeaveRoster? {
          ListedHolds(st, s, st.sess[s].node);
        }
      }
    }
    forall n: nat | n in st'.roster ensures exists t: nat :: Listed(st', t, n) {
      if n in st.roster.Keys {
        var t: nat :| Listed(st, t, n);
        assert t != s || !op.LeaveRoster? ==> Listed(st', t, n);
        if op.LeaveRoster? {
          ListedHolds(st, t, n);
          ListedHolds(st, s, st.sess[s].node);
        }
      } else {
        assert Listed(st', s, n);
      }
    }
  }

  // ---------------------------------------------------------------------------
  // Presence
  // ---------------------------------------------------------------------------

  /** `s` has been given token `id` for handle `h`. */
  ghost predicate Entered(st: System, s: nat, h: string, id: nat) {
    s in st.sess && !st.sess[s].phase.Arrived? && st.sess[s].handle == h && st.sess[s].id == id
  }

  /** ... and has not left. */
  ghost predicate Live(st: System, s: nat, h: string, id: nat) {
    Entered(st, s, h, id) && !st.sess[s].phase.Gone?
  }

  /** `s` holds the current token `id` of handle `h`. */
  ghost predicate Current(st: System, s: nat, h: string, id: nat) {
    h in st.presence.cur && st.presence.cur[h] == Token(id, s)
  }

  /** `t` is about to disconnect `s`, whose token was `id`. */
  ghost predicate Closing(st: System, t: nat, s: nat, id: nat) {
    t in st.sess && st.sess[t].phase == Entering(Some(Token(id, s)))
  }

  /** Tokens are issued once, in order. */
  ghost predicate TokensInv(st: System) {
    && (forall s: nat, h: string, i: nat :: Entered(st, s, h, i) ==> 1 <= i <= st.presence.issued)
    && (forall s: nat, t: nat, g: string, h: string, i: nat :: Entered(st, s, g, i) && Entered(st, t, h, i) ==> s == t)
  }

  /** The current token belongs to a live session of that handle, and is the newest issued for it. */
  ghost predicate CurrentInv(st: System) {
    && (forall s: nat, h: string, i: nat :: Current(st, s, h, i) ==> Live(st, s, h, i))
    && (forall s: nat, h: string, i: nat, t: nat, j: nat :: Current(st, s, h, i) && Entered(st, t, h, j) ==> j <= i)
  }

  /** A session about to be disconnected was replaced by a newer login of its handle, by one at a time. */
  ghost predicate ClosingInv(st: System) {
    && (forall t: nat, s: nat, i: nat :: Closing(st, t, s, i) ==> Replaces(st, t, s, i))
    && (forall t: nat, u: nat, s: nat, i: nat, j: nat :: Closing(st, t, s, i) && Closing(st, u, s, j) ==> t == u)
  }

  /** A session is current, about to be disconnected, or has been disconnected, and only one of these. */
  ghost predicate StatesInv(st: System) {
    && (forall s: nat, h: string, i: nat :: Live(st, s, h, i) ==>
          Current(st, s, h, i) || (exists t: nat :: Closing(st, t, s, i)) || st.closed[s] == 1)
    && (forall t: nat, s: nat, i: nat :: Closing(st, t, s, i) ==> st.closed[s] == 0)
    && (forall s: nat, h: string, i: nat :: Current(st, s, h, i) ==> st.closed[s] == 0)
    && (forall s: nat :: st.closed[s] <= 1 && (st.closed[s] == 1 ==> exists h: string, i: nat :: Entered(st, s, h, i)))
  }

  ghost predicate PresenceInv(st: System) {
    TokensInv(st) && CurrentInv(st) && ClosingInv(st) && StatesInv(st)
  }

  /** `t` is a newer session than `s` for the handle of `s`, and `s` is no longer current. */
  ghost predicate Replaces(st: System, t: nat, s: nat, i: nat) {
    && s in st.sess && t in st.sess && s != t
    && Entered(st, s, st.sess[t].handle, i) && i < st.sess[t].id
    && !Current(st, s, st.sess[t].handle, i)
  }

  /** A newer login takes the handle: the token before, if any, is the one it must disconnect. */
  lemma EnterFacts(st: System, max: nat, s: nat)
    requires Enabled(st, max, s, Enter)
    ensures var st' := Next(st, s, Enter);
            var g, n := st.sess[s].handle, st.presence.issued + 1;
            && st'.presence.issued == n && st'.closed == st.closed
            && (forall t: nat, h: string, i: nat ::
                  Entered(st', t, h, i) <==> Entered(st, t, h, i) || (t == s && h == g && i == n))
            && (forall t: nat, h: string, i: nat ::
                  Live(st', t, h, i) <==> Live(st, t, h, i) || (t == s && h == g && i == n))
            && (forall t: nat, h: string, i: nat ::
                  Current(st', t, h, i) <==> (if h == g then t == s && i == n else Current(st, t, h, i)))
            && (forall t: nat, u: nat, i: nat ::
                  Closing(st', t, u, i) <==> Closing(st, t, u, i) || (t == s && Current(st, u, g, i)))
            && (forall h: string, i: nat :: !Entered(st, s, h, i))
            && (forall u: nat, i: nat :: !Closing(st, s, u, i))
            && st'.sess[s].handle == g && st'.sess[s].id == n
            && (forall t: nat :: t in st.sess ==> t in st'.sess && st'.sess[t].handle == st.sess[t].handle)
            && (forall t: nat :: t in st.sess && t != s ==> st'.sess[t].id == st.sess[t].id)
  {
  }

  lemma EnterStep(st: System, max: nat, s: nat)
    requires PresenceInv(st) && Enabled(st, max, s, Enter)
    ensures PresenceInv(Next(st, s, Enter))
  {
    var st' := Next(st, s, Enter);
    hide Next, Enabled, TokensInv, CurrentInv, ClosingInv, StatesInv;
    EnterTokens(st, max, s);
    EnterClosings(st, max, s);
    EnterStates(st, max, s);
  }

  lemma EnterTokens(st: System, max: nat, s: nat)
    requires TokensInv(st) && CurrentInv(st) && Enabled(st, max, s, Enter)
    ensures var st' := Next(st, s, Enter); TokensInv(st') && CurrentInv(st')
  {
    EnterFacts(st, max, s);
    hide Next, Enabled, Entered, Live, Current, Closing;
  }

  lemma EnterClosings(st: System, max: nat, s: nat)
    requires TokensInv(st) && CurrentInv(st) && ClosingInv(st) && StatesInv(st) && Enabled(st, max, s, Enter)
    ensures ClosingInv(Next(st, s, Enter))
  {
    EnterFacts(st, max, s);
    var st' := Next(st, s, Enter);
    hide Next, Enabled, Entered, Live, Current, Closing;
    var g := st.sess[s].handle;
    forall t: nat, u: nat, i: nat | Closing(st', t, u, i) ensures Replaces(st', t, u, i) {
      if t == s && Current(st, u, g, i) {
        assert Live(st, u, g, i);
        LiveEntered(st, u, g, i);
      } else {
        assert Replaces(st, t, u, i);
      }
    }
    forall t: nat, u: nat, i: nat, j: nat | Closing(st, t, u, i) ensures !Current(st, u, g, j) {
      NotBoth(st, t, u, i, g, j);
    }
  }

  lemma LiveEntered(st: System, u: nat, h: string, i: nat)
    requires Live(st, u, h, i)
    ensures Entered(st, u, h, i) && u in st.sess && st.sess[u].handle == h
  {
  }

  /** A current session is not about to be disconnected. */
  lemma NotBoth(st: System, t: nat, u: nat, i: nat, h: string, j: nat)
    requires CurrentInv(st) && ClosingInv(st) && Closing(st, t, u, i)
    ensures !Current(st, u, h, j)
  {
    hide Closing, Current;
    assert Replaces(st, t, u, i);
    if Current(st, u, h, j) {
      SameEntry(st, u, st.sess[t].handle, i, h, j);
    }
  }

  lemma EnterStates(st: System, max: nat, s: nat)
    requires TokensInv(st) && CurrentInv(st) && ClosingInv(st) && StatesInv(st) && Enabled(st, max, s, Enter)
    ensures StatesInv(Next(st, s, Enter))
  {
    EnterFacts(st, max, s);
    var st' := Next(st, s, Enter);
    hide Next, Enabled, Entered, Live, Current, Closing, TokensInv, CurrentInv, ClosingInv;
    var g := st.sess[s].handle;
    forall u: nat, h: string, i: nat | Live(st', u, h, i)
      ensures Current(st', u, h, i) || (exists t: nat :: Closing(st', t, u, i)) || st'.closed[u] == 1
    {
      if Live(st, u, h, i) && Current(st, u, h, i) && h == g {
        assert Closing(st', s, u, i);
      }
    }
    forall u: nat ensures st'.closed[u] == 1 ==> exists h: string, i: nat :: Entered(st', u, h, i) {
      if st.closed[u] == 1 {
        var h: string, i: nat :| Entered(st, u, h, i);
        assert Entered(st', u, h, i);
      }
    }
  }

  /** The other moves: only Displace ends a closing, and only LeavePresence a session or a current token. */
  lemma OtherFacts(st: System, max: nat, s: nat, op: Op)
    requires Enabled(st, max, s, op) && !op.Enter?
    ensures var st' := Next(st, s, op);
            && st'.presence.issued == st.presence.issued
            && (forall t: nat, h: string, i: nat :: Entered(st', t, h, i) <==> Entered(st, t, h, i))
            && (forall t: nat, h: string, i: nat ::
                  Live(st', t, h, i) <==> Live(st, t, h, i) && !(op.LeavePresence? && t == s))
            && (forall t: nat, h: string, i: nat ::
                  Current(st', t, h, i) ==> Current(st, t, h, i))
            && (!op.LeavePresence? ==> st'.presence == st.presence)
            && (op.LeavePresence? ==>
                  forall t: nat, h: string, i: nat :: Current(st, t, h, i) && !Current(st', t, h, i) ==>
                    h == st.sess[s].handle && i == st.sess[s].id)
            && (op.LeavePresence? ==> Live(st, s, st.sess[s].handle, st.sess[s].id))
            && (forall t: nat, u: nat, i: nat ::
                  Closing(st', t, u, i) <==> Closing(st, t, u, i) && !(op.Displace? && t == s))
            && (forall t: nat :: t in st.sess ==> t in st'.sess && st'.sess[t].handle == st.sess[t].handle)
            && (forall t: nat :: t in st.sess ==> st'.sess[t].id == st.sess[t].id)
            && (!op.Displace? ==> st'.closed == st.closed)
  {
    var st' := Next(st, s, op);
    hide Next, Enabled, Entered, Live, Current, Closing;
    MoveShape(st, max, s, op);
    forall t: nat, h: string, i: nat
      ensures Entered(st', t, h, i) <==> Entered(st, t, h, i)
      ensures Live(st', t, h, i) <==> Live(st, t, h, i) && !(op.LeavePresence? && t == s)
    {
      SessionFacts(st, max, s, op, t, h, i);
    }
    forall t: nat, u: nat, i: nat
      ensures Closing(st', t, u, i) <==> Closing(st, t, u, i) && !(op.Displace? && t == s)
    {
      ClosingFacts(st, max, s, op, t, u, i);
    }
    CurrentFacts(st, max, s, op);
  }

  /** What a move changes: the phase of its session; Leave gives up a token, Displace counts a closing. */
  lemma MoveShape(st: System, max: nat, s: nat, op: Op)
    requires Enabled(st, max, s, op) && !op.Enter?
    ensures var st' := Next(st, s, op);
            && st'.sess.Keys == st.sess.Keys + {s}
            && (forall t: nat :: t in st.sess ==>
                  (t != s ==> st'.sess[t] == st.sess[t])
                  && st'.sess[t].handle == st.sess[t].handle && st'.sess[t].id == st.sess[t].id)
            && (s !in st.sess ==> st'.sess[s].phase.Arrived?)
            && (s in st.sess ==>
                  && !st.sess[s].phase.Arrived? && !st'.sess[s].phase.Arrived?
                  && !st.sess[s].phase.Gone? && (st'.sess[s].phase.Gone? <==> op.LeavePresence?)
                  && (st.sess[s].phase.Entering? <==> op.Displace?) && !st'.sess[s].phase.Entering?)
            && (op.LeavePresence? ==>
                  s in st.sess && st'.presence == st.presence.Leave(st.sess[s].handle, st.sess[s].id))
            && (!op.LeavePresence? ==> st'.presence == st.presence)
            && (!op.Displace? ==> st'.closed == st.closed)
  {
    hide Allotted;
  }

  lemma SessionFacts(st: System, max: nat, s: nat, op: Op, t: nat, h: string, i: nat)
    requires Enabled(st, max, s, op) && !op.Enter?
    ensures Entered(Next(st, s, op), t, h, i) <==> Entered(st, t, h, i)
    ensures Live(Next(st, s, op), t, h, i) <==> Live(st, t, h, i) && !(op.LeavePresence? && t == s)
  {
    MoveShape(st, max, s, op);
    hide Next, Enabled;
  }

  lemma ClosingFacts(st: System, max: nat, s: nat, op: Op, t: nat, u: nat, i: nat)
    requires Enabled(st, max, s, op) && !op.Enter?
    ensures Closing(Next(st, s, op), t, u, i) <==> Closing(st, t, u, i) && !(op.Displace? && t == s)
  {
    MoveShape(st, max, s, op);
    hide Next, Enabled;
  }

  lemma CurrentFacts(st: System, max: nat, s: nat, op: Op)
    requires Enabled(st, max, s, op) && !op.Enter?
    ensures var st' := Next(st, s, op);
            && st'.presence.issued == st.presence.issued
            && (forall t: nat, h: string, i: nat :: Current(st', t, h, i) ==> Current(st, t, h, i))
            && (op.LeavePresence? ==>
                  && Live(st, s, st.sess[s].handle, st.sess[s].id)
                  && forall t: nat, h: string, i: nat :: Current(st, t, h, i) && !Current(st', t, h, i) ==>
                       h == st.sess[s].handle && i == st.sess[s].id)
  {
    MoveShape(st, max, s, op);
    hide Next, Enabled;
  }

  lemma DisplaceFacts(st: System, max: nat, s: nat)
    requires Enabled(st, max, s, Displace)
    ensures var st' := Next(st, s, Displace);
            forall u: nat :: st'.closed[u] == st.closed[u] + if exists i: nat :: Closing(st, s, u, i) then 1 else 0
  {
    var prev := st.sess[s].phase.prev;
    if prev != None {
      assert Closing(st, s, prev.value.owner, prev.value.id);
    }
  }

  lemma OtherStep(st: System, max: nat, s: nat, op: Op)
    requires PresenceInv(st) && Enabled(st, max, s, op) && !op.Enter? && !op.Displace?
    ensures PresenceInv(Next(st, s, op))
  {
    hide Next, Enabled, TokensInv, CurrentInv, ClosingInv, StatesInv;
    OtherTokens(st, max, s, op);
    OtherClosings(st, max, s, op);
    OtherStates(st, max, s, op);
  }

  lemma OtherTokens(st: System, max: nat, s: nat, op: Op)
    requires TokensInv(st) && CurrentInv(st) && Enabled(st, max, s, op) && !op.Enter?
    ensures var st' := Next(st, s, op); TokensInv(st') && CurrentInv(st')
  {
    OtherFacts(st, max, s, op);
    var st' := Next(st, s, op);
    hide Next, Enabled, Entered, Live, Closing;
    forall t: nat, h: string, i: nat | Current(st', t, h, i) ensures Live(st', t, h, i) {
      assert Current(st, t, h, i) && Live(st, t, h, i);
      if op.LeavePresence? && t == s {
        LeftIsNotCurrent(st, max, s);
        LiveEntered(st, t, h, i);
      }
    }
    hide Current;
  }

  lemma OtherClosings(st: System, max: nat, s: nat, op: Op)
    requires ClosingInv(st) && Enabled(st, max, s, op) && !op.Enter?
    ensures ClosingInv(Next(st, s, op))
  {
    OtherFacts(st, max, s, op);
    var st' := Next(st, s, op);
    hide Next, Enabled, Entered, Live, Closing, Current;
    forall t: nat, u: nat, i: nat | Closing(st', t, u, i) ensures Replaces(st', t, u, i) {
      assert Replaces(st, t, u, i);
    }
  }

  lemma OtherStates(st: System, max: nat, s: nat, op: Op)
    requires StatesInv(st) && TokensInv(st) && Enabled(st, max, s, op) && !op.Enter? && !op.Displace?
    ensures StatesInv(Next(st, s, op))
  {
    OtherFacts(st, max, s, op);
    var st' := Next(st, s, op);
    hide Next, Enabled, Entered, Closing, Current;
    forall u: nat, h: string, i: nat | Live(st', u, h, i)
      ensures Current(st', u, h, i) || (exists t: nat :: Closing(st', t, u, i)) || st'.closed[u] == 1
    {
      assert Live(st, u, h, i);
      if !Current(st, u, h, i) && st.closed[u] != 1 {
        var t: nat :| Closing(st, t, u, i);
        assert Closing(st', t, u, i);
      }
    }
    hide Live;
    forall u: nat ensures st'.closed[u] == 1 ==> exists h: string, i: nat :: Entered(st', u, h, i) {
      if st.closed[u] == 1 {
        var h: string, i: nat :| Entered(st, u, h, i);
        assert Entered(st', u, h, i);
      }
    }
  }

  /** A session's own Leave gives up its own token. */
  lemma LeftIsNotCurrent(st: System, max: nat, s: nat)
    requires Enabled(st, max, s, LeavePresence)
    ensures var st' := Next(st, s, LeavePresence);
            forall h: string, i: nat :: Current(st', s, h, i) ==> !Entered(st, s, h, i)
  {
  }

  lemma DisplaceStep(st: System, max: nat, s: nat)
    requires PresenceInv(st) && Enabled(st, max, s, Displace)
    ensures PresenceInv(Next(st, s, Displace))
  {
    hide Next, Enabled, TokensInv, CurrentInv, ClosingInv, StatesInv;
    OtherTokens(st, max, s, Displace);
    OtherClosings(st, max, s, Displace);
    DisplaceStates(st, max, s);
  }

  lemma DisplaceStates(st: System, max: nat, s: nat)
    requires PresenceInv(st) && Enabled(st, max, s, Displace)
    ensures StatesInv(Next(st, s, Displace))
  {
    OtherFacts(st, max, s, Displace);
    DisplaceFacts(st, max, s);
    var st' := Next(st, s, Displace);
    hide Next, Enabled, Entered, Live, Closing, Current, TokensInv, CurrentInv;
    forall t: nat, u: nat, i: nat | Closing(st', t, u, i) ensures st'.closed[u] == 0 {
      assert (exists j: nat :: Closing(st, s, u, j)) ==> t == s;
    }
    forall u: nat, h: string, i: nat | Current(st', u, h, i) ensures st'.closed[u] == 0 {
      if j: nat :| Closing(st, s, u, j) {
        NotBoth(st, s, u, j, h, i);
      }
    }
    forall u: nat, h: string, i: nat | Live(st', u, h, i)
      ensures Current(st', u, h, i) || (exists t: nat :: Closing(st', t, u, i)) || st'.closed[u] == 1
    {
      StaysCurrent(st, max, s, u, h, i);
      if !Current(st, u, h, i) && st.closed[u] != 1 {
        var t: nat :| Closing(st, t, u, i);
        assert t != s ==> Closing(st', t, u, i);
      }
    }
    forall u: nat ensures st'.closed[u] <= 1 && (st'.closed[u] == 1 ==> exists h: string, i: nat :: Entered(st', u, h, i)) {
      if j: nat :| Closing(st, s, u, j) {
        assert Replaces(st, s, u, j);
        assert Entered(st', u, st.sess[s].handle, j);
      } else if st.closed[u] == 1 {
        var h: string, i: nat :| Entered(st, u, h, i);
        assert Entered(st', u, h, i);
      }
    }
  }

  lemma StaysCurrent(st: System, max: nat, s: nat, u: nat, h: string, i: nat)
    requires Enabled(st, max, s, Displace)
    ensures Current(Next(st, s, Displace), u, h, i) == Current(st, u, h, i)
  {
  }

  lemma SameEntry(st: System, s: nat, g: string, i: nat, h: string, j: nat)
    requires Entered(st, s, g, i) && Live(st, s, h, j)
    ensures g == h && i == j
  {
  }

  // ---------------------------------------------------------------------------
  // Every interleaving
  // ---------------------------------------------------------------------------

  ghost predicate Inv(st: System, max: nat) {
    NodesInv(st, max) && RosterInv(st) && PresenceInv(st)
  }

  lemma StepInv(st: System, max: nat, s: nat, op: Op)
    requires Inv(st, max) && Enabled(st, max, s, op)
    ensures Inv(Next(st, s, op), max)
  {
    hide NodesInv, RosterInv, PresenceInv, Enabled, Next;
    NodesStep(st, max, s, op);
    RosterStep(st, max, s, op);
    if op.Enter? {
      EnterStep(st, max, s);
    } else if op.Displace? {
      DisplaceStep(st, max, s);
    } else {
      OtherStep(st, max, s, op);
    }
  }

  lemma {:induction false} RunInv(max: nat, run: seq<System>, moves: seq<(nat, Op)>)
    requires IsRun(max, run, moves)
    ensures Inv(run[|run| - 1], max)
    decreases |run|
  {
    if |moves| > 0 {
      var n := |moves| - 1;
      hide Inv, Enabled, Next;
      RunInv(max, run[..n + 1], moves[..n]);
      assert Enabled(run[n], max, moves[n].0, moves[n].1);
      StepInv(run[n], max, moves[n].0, moves[n].1);
    }
  }

  /** In every interleaving of any number of sessions: sessions hold distinct nodes from 1 to `max`, and
      the pool's used set is exactly those; the roster names exactly the sessions on it, each under the
      node it holds; the current token of a handle is a live session's and the newest issued for it; and
      every live session is current, or about to be disconnected by a newer login, or has been, once. */
  lemma Admission(max: nat, run: seq<System>, moves: seq<(nat, Op)>)
    requires IsRun(max, run, moves)
    ensures var st := run[|run| - 1];
            && (forall s, t :: s in st.sess && t in st.sess && s != t && HoldsNode(st.sess[s]) && HoldsNode(st.sess[t]) ==>
                  st.sess[s].node != st.sess[t].node)
            && (forall n :: n in st.used <==> exists s :: s in st.sess && HoldsNode(st.sess[s]) && st.sess[s].node == n)
            && (forall n :: n in st.used ==> 1 <= n <= max)
            && (forall n :: n in st.roster ==>
                  exists s :: s in st.sess && st.sess[s].phase.OnRoster? && st.sess[s].node == n
                              && st.roster[n].node == n && st.roster[n].handle == st.sess[s].handle)
            && (forall s :: s in st.sess && st.sess[s].phase.OnRoster? ==> st.sess[s].node in st.roster)
            && (forall h :: h in st.presence.cur ==>
                  var t := st.presence.cur[h];
                  && t.owner in st.sess && st.sess[t.owner].handle == h && st.sess[t.owner].id == t.id
                  && !st.sess[t.owner].phase.Gone?
                  && forall s :: s in st.sess && !st.sess[s].phase.Arrived? && st.sess[s].handle == h ==> st.sess[s].id <= t.id)
            && (forall s :: st.closed[s] <= 1)
  {
    var st := run[|run| - 1];
    RunInv(max, run, moves);
    forall s, t | s in st.sess && t in st.sess && s != t && HoldsNode(st.sess[s]) && HoldsNode(st.sess[t])
      ensures st.sess[s].node != st.sess[t].node
    {
      assert Holder(st, s, st.sess[s].node) && Holder(st, t, st.sess[t].node);
    }
    forall n
      ensures n in st.used <==> exists s :: s in st.sess && HoldsNode(st.sess[s]) && st.sess[s].node == n
      ensures n in st.used ==> 1 <= n <= max
    {
      if n in st.used {
        var s: nat :| Holder(st, s, n);
      }
      if s: nat :| s in st.sess && HoldsNode(st.sess[s]) && st.sess[s].node == n {
        assert Holder(st, s, n);
      }
    }
    forall n | n in st.roster
      ensures exists s :: s in st.sess && st.sess[s].phase.OnRoster? && st.sess[s].node == n
                          && st.roster[n].node == n && st.roster[n].handle == st.sess[s].handle
    {
      var s: nat :| Listed(st, s, n);
      assert Names(st, n, s);
    }
    forall s | s in st.sess && st.sess[s].phase.OnRoster? ensures st.sess[s].node in st.roster {
      assert Listed(st, s, st.sess[s].node);
      assert Names(st, st.sess[s].node, s);
    }
    CurrentIsNewest(st, max);
  }

  lemma CurrentIsNewest(st: System, max: nat)
    requires Inv(st, max)
    ensures forall h :: h in st.presence.cur ==>
                  var t := st.presence.cur[h];
                  && t.owner in st.sess && st.sess[t.owner].handle == h && st.sess[t.owner].id == t.id
                  && !st.sess[t.owner].phase.Gone?
                  && forall s :: s in st.sess && !st.sess[s].phase.Arrived? && st.sess[s].handle == h ==> st.sess[s].id <= t.id
  {
    forall h | h in st.presence.cur
      ensures var t := st.presence.cur[h];
              && t.owner in st.sess && st.sess[t.owner].handle == h && st.sess[t.owner].id == t.id
              && !st.sess[t.owner].phase.Gone?
              && forall s :: s in st.sess && !st.sess[s].phase.Arrived? && st.sess[s].handle == h ==> st.sess[s].id <= t.id
    {
      var t := st.presence.cur[h];
      assert Current(st, t.owner, h, t.id) && Live(st, t.owner, h, t.id);
      forall s | s in st.sess && !st.sess[s].phase.Arrived? && st.sess[s].handle == h ensures st.sess[s].id <= t.id {
        assert Entered(st, s, h, st.sess[s].id);
      }
    }
  }

  /** Newest wins, exactly: a session that has registered and not left is in exactly one of three states. */
  lemma NewestWins(max: nat, run: seq<System>, moves: seq<(nat, Op)>, s: nat)
    requires IsRun(max, run, moves)
    requires var st := run[|run| - 1]; s in st.sess && !st.sess[s].phase.Arrived? && !st.sess[s].phase.Gone?
    ensures var st := run[|run| - 1];
            var h, i := st.sess[s].handle, st.sess[s].id;
            var current := h in st.presence.cur && st.presence.cur[h] == Token(i, s);
            var closing := exists t :: t in st.sess && st.sess[t].phase == Entering(Some(Token(i, s)));
            && (current || closing || st.closed[s] == 1)
            && !(current && closing) && !(current && st.closed[s] == 1) && !(closing && st.closed[s] == 1)
  {
    var st := run[|run| - 1];
    RunInv(max, run, moves);
    var h, i := st.sess[s].handle, st.sess[s].id;
    assert Live(st, s, h, i);
    if t: nat :| Closing(st, t, s, i) {
      assert Replaces(st, t, s, i);
      SameEntry(st, s, st.sess[t].handle, i, h, i);
    }
    if t :| t in st.sess && st.sess[t].phase == Entering(Some(Token(i, s))) {
      assert Closing(st, t, s, i);
    }
  }

  /** No session's Leave, late or not, takes the place of another: the current token changes only if it
      was the leaver's own. And only a newer login disconnects anyone, never itself. */
  lemma LeaveIsHarmless(max: nat, run: seq<System>, moves: seq<(nat, Op)>, s: nat, h: string)
    requires IsRun(max, run, moves)
    requires Enabled(run[|run| - 1], max, s, LeavePresence) && h in run[|run| - 1].presence.cur
    ensures var st := run[|run| - 1];
            var st' := Next(st, s, LeavePresence);
            && st'.closed == st.closed
            && (st.presence.cur[h].owner != s ==> h in st'.presence.cur && st'.presence.cur[h] == st.presence.cur[h])
  {
    var st := run[|run| - 1];
    RunInv(max, run, moves);
    var t := st.presence.cur[h];
    assert Current(st, t.owner, h, t.id);
    assert Entered(st, t.owner, h, t.id);
    assert Entered(st, s, st.sess[s].handle, st.sess[s].id);
  }

  lemma DisplacedByNewer(max: nat, run: seq<System>, moves: seq<(nat, Op)>, t: nat, s: nat)
    requires IsRun(max, run, moves)
    requires Enabled(run[|run| - 1], max, t, Displace)
    requires Next(run[|run| - 1], t, Displace).closed[s] != run[|run| - 1].closed[s]
    ensures var st := run[|run| - 1];
            && s != t && s in st.sess && st.sess[s].handle == st.sess[t].handle && st.sess[s].id < st.sess[t].id
            && st.closed[s] == 0
  {
    var st := run[|run| - 1];
    RunInv(max, run, moves);
    DisplaceFacts(st, max, t);
    var i: nat :| Closing(st, t, s, i);
    assert Replaces(st, t, s, i);
  }

  // ---------------------------------------------------------------------------
  // The handler, undisturbed
  // ---------------------------------------------------------------------------

  /** One session's passage through the registries with no other session in between: what it took it gives
      back, whether or not it got a node, and it leaves no trace but a used-up token and, if it took the
      handle over, the disconnection of the session before it. */
  method SshHandle(presence: Presence, pool: NodePool, roster: Roster, me: nat, handle: string,
                   ip: string, transport: string, now: int)
    requires forall n :: n in roster.byNS ==> n in pool.used
    modifies presence, pool, roster
    ensures pool.used == old(pool.used) && roster.byNS == old(roster.byNS)
    ensures presence.cur == old(presence.cur) - {handle} && presence.issued == old(presence.issued) + 1
    ensures presence.closed == old(presence.closed) +
            if handle in old(presence.cur) then [old(presence.cur)[handle].owner] else []
  {
    var id := presence.Enter(handle, me);
    var node := pool.Acquire();
    if node != 0 {
      roster.Join(node, handle, ip, transport, now);
      roster.Leave(node);
      pool.Release(node);
    }
    presence.Leave(handle, id);
  }
}
