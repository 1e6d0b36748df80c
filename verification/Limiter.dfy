/** The cap on concurrent callers, in total and for each address: a counting semaphore and a map under a
    mutex, taken and given back in separate steps by any number of callers. */
module Limiter {
  import opened Sums

  function PerIP(perIP: map<string, nat>, ip: string): nat {
    if ip in perIP then perIP[ip] else 0
  }

  /** The mutex region of acquire: None if the address is at its cap. */
  function Admit(perIP: map<string, nat>, maxIP: int, ip: string): (bool, map<string, nat>) {
    if maxIP > 0 && PerIP(perIP, ip) >= maxIP then (false, perIP)
    else (true, perIP[ip := PerIP(perIP, ip) + 1])
  }

  /** The mutex region of release. */
  function Dismiss(perIP: map<string, nat>, ip: string): map<string, nat> {
    if PerIP(perIP, ip) == 0 then perIP
    else if perIP[ip] == 1 then perIP - {ip}
    else perIP[ip := perIP[ip] - 1]
  }

  class Limiter {
    var sem: nat              // how many slots of the semaphore channel are taken
    var perIP: map<string, nat>
    const cap: nat
    const maxIP: int

    constructor (maxSessions: int, maxIP: int)
      ensures sem == 0 && perIP == map[]
      ensures cap == (if maxSessions <= 0 then 100 else maxSessions) && this.maxIP == maxIP
    {
      sem, perIP := 0, map[];
      cap := if maxSessions <= 0 then 100 else maxSessions;
      this.maxIP := maxIP;
    }

    /** A call with no other caller in between. */
    method Acquire(ip: string) returns (ok: bool)
      modifies this
      ensures ok == (old(sem) < cap && (maxIP <= 0 || PerIP(old(perIP), ip) < maxIP))
      ensures ok ==> sem == old(sem) + 1 && perIP == Admit(old(perIP), maxIP, ip).1
      ensures !ok ==> sem == old(sem) && perIP == old(perIP)
    {
      if sem >= cap {
        return false;
      }
      sem := sem + 1;
      if maxIP > 0 && PerIP(perIP, ip) >= maxIP {
        sem := sem - 1;
        return false;
      }
      perIP := perIP[ip := PerIP(perIP, ip) + 1];
      return true;
    }

    /** A call with no other caller in between. With no slot taken it would wait in its receive for ever,
        the count already given back. */
    method Release(ip: string) returns (done: bool)
      modifies this
      ensures perIP == Dismiss(old(perIP), ip)
      ensures done == (old(sem) > 0) && sem == old(sem) - if done then 1 else 0
    {
      if PerIP(perIP, ip) > 0 {
        perIP := perIP[ip := perIP[ip] - 1];
        if perIP[ip] == 0 {
          perIP := perIP - {ip};
        }
      }
      assert perIP == Dismiss(old(perIP), ip);
      done := sem > 0;
      if done {
        sem := sem - 1;
      }
    }
  }

  /** A release undoes the acquire it pays for. */
  lemma ReleaseUndoes(perIP: map<string, nat>, maxIP: int, ip: string)
    requires forall k :: k in perIP ==> perIP[k] > 0
    requires Admit(perIP, maxIP, ip).0
    ensures Dismiss(Admit(perIP, maxIP, ip).1, ip) == perIP
  {
    if ip in perIP {
      assert perIP[ip := perIP[ip] + 1][ip := perIP[ip]] == perIP;
    }
  }

  // ---------------------------------------------------------------------------
  // Interleaved callers
  // ---------------------------------------------------------------------------

  /** A caller that has put its token into the semaphore and not yet taken it out: before the mutex region
      of acquire, turned away there, admitted, or past the mutex region of release. */
  datatype Phase = Entering | Refused | Admitted | Leaving

  datatype Caller = Caller(ip: string, phase: Phase)

  datatype System = System(sem: nat, perIP: map<string, nat>, callers: map<nat, Caller>)

  const IDLE := System(0, map[], map[])

  /** The atomic steps: the non-blocking send, the two mutex regions, and the receive. */
  datatype Step = Send(ip: string) | Check | Finish | Receive

  ghost predicate Enabled(st: System, cap: nat, c: nat, step: Step) {
    match step
    case Send(_) => c !in st.callers && st.sem < cap
    case Check => c in st.callers && st.callers[c].phase.Entering?
    case Finish => c in st.callers && st.callers[c].phase.Admitted?
    case Receive => WantsReceive(st, c) && st.sem > 0
  }

  /** The caller's next step is to take its token out of the semaphore. */
  ghost predicate WantsReceive(st: System, c: nat) {
    c in st.callers && (st.callers[c].phase.Refused? || st.callers[c].phase.Leaving?)
  }

  ghost function Next(st: System, cap: nat, maxIP: int, c: nat, step: Step): System
    requires Enabled(st, cap, c, step)
  {
    match step
    case Send(ip) => System(st.sem + 1, st.perIP, st.callers[c := Caller(ip, Entering)])
    case Check =>
      var ip := st.callers[c].ip;
      var (ok, perIP) := Admit(st.perIP, maxIP, ip);
      System(st.sem, perIP, st.callers[c := Caller(ip, if ok then Admitted else Refused)])
    case Finish =>
      var ip := st.callers[c].ip;
      System(st.sem, Dismiss(st.perIP, ip), st.callers[c := Caller(ip, Leaving)])
    case Receive => System(st.sem - 1, st.perIP, st.callers - {c})
  }

  ghost predicate IsRun(cap: nat, maxIP: int, run: seq<System>, moves: seq<(nat, Step)>) {
    && |run| == |moves| + 1 && run[0] == IDLE
    && forall k :: 0 <= k < |moves| ==>
         && Enabled(run[k], cap, moves[k].0, moves[k].1)
         && run[k + 1] == Next(run[k], cap, maxIP, moves[k].0, moves[k].1)
  }

  ghost function AdmittedFrom(st: System, ip: string): set<nat> {
    set c | c in st.callers && st.callers[c] == Caller(ip, Admitted)
  }

  ghost function AllAdmitted(st: System): set<nat> {
    set c | c in st.callers && st.callers[c].phase.Admitted?
  }

  ghost function InTransit(st: System): set<nat> {
    set c | c in st.callers && !st.callers[c].phase.Admitted?
  }

  /** The counts of the map, within the cap and without zeros. */
  ghost predicate GoodCounts(perIP: map<string, nat>, maxIP: int) {
    forall ip :: ip in perIP ==> perIP[ip] > 0 && (maxIP > 0 ==> perIP[ip] <= maxIP)
  }

  ghost predicate Inv(st: System, cap: nat, maxIP: int) {
    && st.sem == |st.callers| && st.sem <= cap
    && (forall ip :: PerIP(st.perIP, ip) == |AdmittedFrom(st, ip)|)
    && GoodCounts(st.perIP, maxIP)
    && SumOf(st.perIP) == |AllAdmitted(st)|
  }

  lemma SendStep(st: System, cap: nat, maxIP: int, c: nat, step: Step)
    requires Inv(st, cap, maxIP) && Enabled(st, cap, c, step) && step.Send?
    ensures Inv(Next(st, cap, maxIP, c, step), cap, maxIP)
  {
    var st' := Next(st, cap, maxIP, c, step);
    assert st'.callers.Keys == st.callers.Keys + {c};
    SameAdmitted(st, st');
  }

  lemma SameAdmitted(st: System, st': System)
    requires forall c: nat, ip :: Is(st, c, ip) <==> Is(st', c, ip)
    ensures AllAdmitted(st') == AllAdmitted(st)
    ensures forall ip :: AdmittedFrom(st', ip) == AdmittedFrom(st, ip)
  {
    forall c ensures c in AllAdmitted(st) <==> c in AllAdmitted(st') {
      if c in AllAdmitted(st) {
        assert Is(st, c, st.callers[c].ip);
      }
      if c in AllAdmitted(st') {
        assert Is(st', c, st'.callers[c].ip);
      }
    }
    forall ip ensures AdmittedFrom(st', ip) == AdmittedFrom(st, ip) {
      forall c ensures c in AdmittedFrom(st, ip) <==> c in AdmittedFrom(st', ip) {
        assert Is(st, c, ip) <==> Is(st', c, ip);
      }
    }
  }

  ghost predicate Is(st: System, c: nat, ip: string) {
    c in st.callers && st.callers[c] == Caller(ip, Admitted)
  }

  lemma ReceiveStep(st: System, cap: nat, maxIP: int, c: nat, step: Step)
    requires Inv(st, cap, maxIP) && Enabled(st, cap, c, step) && step.Receive?
    ensures Inv(Next(st, cap, maxIP, c, step), cap, maxIP)
  {
    var st' := Next(st, cap, maxIP, c, step);
    assert st'.callers.Keys == st.callers.Keys - {c};
    SameAdmitted(st, st');
  }

  lemma OneMore(st: System, st': System, c: nat, ip: string)
    requires c in st.callers && !st.callers[c].phase.Admitted?
    requires st'.callers == st.callers[c := Caller(ip, Admitted)]
    ensures |AllAdmitted(st')| == |AllAdmitted(st)| + 1
    ensures forall other :: |AdmittedFrom(st', other)| == |AdmittedFrom(st, other)| + if other == ip then 1 else 0
  {
    assert AllAdmitted(st') == AllAdmitted(st) + {c};
    forall other ensures |AdmittedFrom(st', other)| == |AdmittedFrom(st, other)| + if other == ip then 1 else 0 {
      if other == ip {
        assert AdmittedFrom(st', other) == AdmittedFrom(st, other) + {c};
      } else {
        assert AdmittedFrom(st', other) == AdmittedFrom(st, other);
      }
    }
  }

  lemma AdmitCounts(perIP: map<string, nat>, maxIP: int, ip: string)
    requires Admit(perIP, maxIP, ip).0
    ensures var after := Admit(perIP, maxIP, ip).1;
            && SumOf(after) == SumOf(perIP) + 1
            && forall other :: PerIP(after, other) == PerIP(perIP, other) + if other == ip then 1 else 0
  {
    if ip in perIP {
      SumChanged(perIP, ip, perIP[ip] + 1);
    } else {
      SumWith(perIP, ip, 1);
    }
  }

  lemma DismissCounts(perIP: map<string, nat>, ip: string)
    requires PerIP(perIP, ip) > 0
    ensures var after := Dismiss(perIP, ip);
            && SumOf(after) + 1 == SumOf(perIP)
            && (forall other :: PerIP(after, other) + (if other == ip then 1 else 0) == PerIP(perIP, other))
  {
    if perIP[ip] == 1 {
      SumWithout(perIP, ip);
    } else {
      SumChanged(perIP, ip, perIP[ip] - 1);
    }
  }

  lemma CheckStep(st: System, cap: nat, maxIP: int, c: nat, step: Step)
    requires Inv(st, cap, maxIP) && Enabled(st, cap, c, step) && step.Check?
    ensures Inv(Next(st, cap, maxIP, c, step), cap, maxIP)
  {
    var st' := Next(st, cap, maxIP, c, step);
    var ip := st.callers[c].ip;
    assert st'.callers.Keys == st.callers.Keys;
    if Admit(st.perIP, maxIP, ip).0 {
      OneMore(st, st', c, ip);
      AdmitCounts(st.perIP, maxIP, ip);
      assert GoodCounts(st'.perIP, maxIP);
      hide SumOf, AdmittedFrom, AllAdmitted, Admit, PerIP;
    } else {
      SameAdmitted(st, st');
    }
  }

  lemma FinishStep(st: System, cap: nat, maxIP: int, c: nat, step: Step)
    requires Inv(st, cap, maxIP) && Enabled(st, cap, c, step) && step.Finish?
    ensures Inv(Next(st, cap, maxIP, c, step), cap, maxIP)
  {
    var st' := Next(st, cap, maxIP, c, step);
    var ip := st.callers[c].ip;
    assert st'.callers.Keys == st.callers.Keys;
    assert c in AdmittedFrom(st, ip) && PerIP(st.perIP, ip) > 0;
    assert st.callers == st'.callers[c := Caller(ip, Admitted)];
    OneMore(st', st, c, ip);
    DismissCounts(st.perIP, ip);
    assert GoodCounts(st'.perIP, maxIP);
    hide SumOf, AdmittedFrom, AllAdmitted, Dismiss, PerIP;
  }

  lemma {:induction false} RunInv(cap: nat, maxIP: int, run: seq<System>, moves: seq<(nat, Step)>)
    requires IsRun(cap, maxIP, run, moves)
    ensures Inv(run[|run| - 1], cap, maxIP)
    decreases |run|
  {
    if |moves| > 0 {
      var n := |moves| - 1;
      var (c, step) := moves[n];
      hide Inv, Next;
      RunInv(cap, maxIP, run[..n + 1], moves[..n]);
      assert Enabled(run[n], cap, c, step);
      match step
      case Send(_) => SendStep(run[n], cap, maxIP, c, step);
      case Check => CheckStep(run[n], cap, maxIP, c, step);
      case Finish => FinishStep(run[n], cap, maxIP, c, step);
      case Receive => ReceiveStep(run[n], cap, maxIP, c, step);
    }
  }

  /** In every interleaving: the semaphore holds one token for each address count and each caller in
      transit; live callers exceed neither the total cap nor a positive cap per address; the map counts
      the live callers of each address and holds no zero; and a caller about to receive from the
      semaphore is never blocked. */
  lemma Conservation(cap: nat, maxIP: int, run: seq<System>, moves: seq<(nat, Step)>)
    requires IsRun(cap, maxIP, run, moves)
    ensures var st := run[|run| - 1];
            && st.sem == SumOf(st.perIP) + |InTransit(st)|
            && |AllAdmitted(st)| == SumOf(st.perIP) && st.sem <= cap
            && (forall ip :: PerIP(st.perIP, ip) == |AdmittedFrom(st, ip)|)
            && (maxIP > 0 ==> forall ip :: |AdmittedFrom(st, ip)| <= maxIP)
            && (forall ip :: ip in st.perIP ==> st.perIP[ip] > 0)
            && (forall c :: WantsReceive(st, c) ==> Enabled(st, cap, c, Receive))
  {
    var st := run[|run| - 1];
    RunInv(cap, maxIP, run, moves);
    assert st.callers.Keys == AllAdmitted(st) + InTransit(st);
    forall ip | maxIP > 0 ensures |AdmittedFrom(st, ip)| <= maxIP {
      assert PerIP(st.perIP, ip) <= maxIP;
    }
    forall c | WantsReceive(st, c) ensures Enabled(st, cap, c, Receive) {
      assert c in st.callers.Keys;
    }
  }
}
