/** Option negotiation between the host, which answers by `ReplyTo` alone, and any client whatever, over two
    FIFO channels. What RFC 854 lets the client say is kept apart from what it does not. */
module TelnetNegotiation {
  import opened Bytes
  import opened Telnet

  /** An option command, or a subnegotiation (whose contents do not matter here). */
  datatype Msg = Verb(verb: byte, opt: byte) | Sub

  /** The host's answer to a message, read off the bytes it writes. */
  function HostAnswer(m: Msg): seq<Msg> {
    match m
    case Sub => []
    case Verb(verb, opt) =>
      var r := ReplyTo(verb, opt);
      if r == [] then [] else [Verb(r[1], r[2])]
  }

  const OFFERS: seq<Msg> := [Verb(WILL, ECHO), Verb(WILL, SGA), Verb(DO, NAWS), Verb(DO, TTYPE), Sub]

  /** The offers are what the opening bytes say, and these are the bytes. */
  lemma OffersAreOpening()
    ensures OPENING == [IAC, OFFERS[0].verb, OFFERS[0].opt] + [IAC, OFFERS[1].verb, OFFERS[1].opt]
                     + [IAC, OFFERS[2].verb, OFFERS[2].opt] + [IAC, OFFERS[3].verb, OFFERS[3].opt]
                     + [IAC, SB, TTYPE, TTYPE_SEND, IAC, SE]
    ensures OPENING == [255, 251, 1] + [255, 251, 3] + [255, 253, 31] + [255, 253, 24] + [255, 250, 24, 1, 255, 240]
  {
  }

  /** The message agrees to one of the offers: DO to an offered WILL, WILL to an offered DO. */
  predicate AgreesToOffer(m: Msg) {
    m.Verb? && ((m.verb == DO && Verb(WILL, m.opt) in OFFERS) || (m.verb == WILL && Verb(DO, m.opt) in OFFERS))
  }

  /** The host is silent exactly on agreement to what it has offered. Everything else about an option it refuses:
      it will not do what it is asked or told to, and does not want what it is offered or refused. */
  lemma AnswersFollowOffers(verb: byte, opt: byte)
    requires verb in {251, 252, 253, 254}
    ensures var m := Verb(verb, opt);
            && ReplyTo(verb, opt) == (if AgreesToOffer(m) then []
                                      else if verb == 253 || verb == 254 then [255, 252, opt] else [255, 254, opt])
            && HostAnswer(m) == (if AgreesToOffer(m) then []
                                 else if verb == 253 || verb == 254 then [Verb(252, opt)] else [Verb(254, opt)])
  {
    OfferedOptions(opt);
    hide AgreesToOffer;
  }

  lemma OfferedOptions(opt: byte)
    ensures AgreesToOffer(Verb(DO, opt)) <==> opt == ECHO || opt == SGA
    ensures AgreesToOffer(Verb(WILL, opt)) <==> opt == NAWS || opt == TTYPE
    ensures !AgreesToOffer(Verb(WONT, opt)) && !AgreesToOffer(Verb(DONT, opt))
  {
    assert OFFERS[0] == Verb(WILL, ECHO) && OFFERS[1] == Verb(WILL, SGA);
    assert OFFERS[2] == Verb(DO, NAWS) && OFFERS[3] == Verb(DO, TTYPE);
  }

  /** `us` and `him` are the options in effect on the host's and on the client's side, as the client's
      messages show; `sent` counts all messages, and `extra` those of the client that the rule does not
      allow as answers: changes it begins itself, and acknowledgements of what is in effect already. */
  datatype System = System(toClient: seq<Msg>, toHost: seq<Msg>, us: set<byte>, him: set<byte>,
                           extra: nat, sent: nat)

  ghost predicate Init(st: System) {
    st.toClient == OFFERS && st.toHost == [] && st.extra == 0 && st.sent == |OFFERS|
  }

  ghost predicate HostStep(st: System, st': System) {
    && st.toHost != []
    && var answer := HostAnswer(st.toHost[0]);
       st' == st.(toHost := st.toHost[1..], toClient := st.toClient + answer, sent := st.sent + |answer|)
  }

  /** RFC 854's rule, for one side's modes `on`: a request for a mode already in effect is not
      acknowledged. A request to turn a mode off is obeyed; one to turn it on may be refused; either is
      answered, unless it is itself the answer to something the client asked. */
  ghost predicate Obeys(on: set<byte>, opt: byte, wanted: bool, yes: byte, no: byte,
                        on': set<byte>, answer: seq<Msg>) {
    if (opt in on) == wanted then on' == on && answer == []
    else if wanted then
      || (on' == on + {opt} && (answer == [Verb(yes, opt)] || answer == []))
      || (on' == on && (answer == [Verb(no, opt)] || answer == []))
    else
      on' == on - {opt} && (answer == [Verb(no, opt)] || answer == [])
  }

  ghost predicate ClientAnswers(st: System, m: Msg, us': set<byte>, him': set<byte>, answer: seq<Msg>) {
    match m
    case Sub => us' == st.us && him' == st.him && (answer == [] || answer == [Sub])
    case Verb(verb, opt) =>
      if verb == WILL || verb == WONT then
        him' == st.him && Obeys(st.us, opt, verb == WILL, DO, DONT, us', answer)
      else if verb == DO || verb == DONT then
        us' == st.us && Obeys(st.him, opt, verb == DO, WILL, WONT, him', answer)
      else us' == st.us && him' == st.him && answer == []
  }

  /** The rule allows this answer to the message the client reads next. */
  ghost predicate Allowed(st: System, answer: seq<Msg>)
    requires st.toClient != []
  {
    exists us', him' :: ClientAnswers(st, st.toClient[0], us', him', answer)
  }

  /** The state of at most one option has changed, in any way. */
  ghost predicate OneOption(st: System, st': System, opt: byte) {
    st'.us <= st.us + {opt} && st'.him <= st.him + {opt}
  }

  /** The client reads a message and answers it with anything. */
  ghost predicate ClientStep(st: System, st': System, answer: seq<Msg>) {
    && st.toClient != []
    && var m := st.toClient[0];
       && st' == System(st.toClient[1..], st.toHost + answer, st'.us, st'.him, st'.extra, st.sent + |answer|)
       && if Allowed(st, answer) then ClientAnswers(st, m, st'.us, st'.him, answer) && st'.extra == st.extra
          else OneOption(st, st', if m.Verb? then m.opt else 0) && st'.extra == st.extra + |answer|
  }

  /** The client says something unasked. */
  ghost predicate ClientStarts(st: System, st': System, m: Msg, opt: byte) {
    && OneOption(st, st', opt)
    && st' == System(st.toClient, st.toHost + [m], st'.us, st'.him, st.extra + 1, st.sent + 1)
  }

  ghost predicate Step(st: System, st': System) {
    || HostStep(st, st')
    || (exists answer :: ClientStep(st, st', answer))
    || (exists m, opt :: ClientStarts(st, st', m, opt))
  }

  ghost predicate IsRun(run: seq<System>) {
    && run != [] && Init(run[0])
    && forall k :: 0 <= k < |run| - 1 ==> Step(run[k], run[k + 1])
  }

  // ---------------------------------------------------------------------------
  // The measure: what every message and every mode in effect can still cause
  // ---------------------------------------------------------------------------

  function ClientWeight(m: Msg): nat {
    if m.Verb? && (m.verb == WONT || m.verb == DONT) then 1 else 5
  }

  function ChannelWeight(ms: seq<Msg>): nat {
    if ms == [] then 0 else ClientWeight(ms[0]) + ChannelWeight(ms[1..])
  }

  function Measure(st: System): nat {
    ChannelWeight(st.toClient) + 2 * |st.toHost| + 2 * |st.us| + 2 * |st.him|
  }

  lemma {:induction false} ChannelWeightConcat(x: seq<Msg>, y: seq<Msg>)
    ensures ChannelWeight(x + y) == ChannelWeight(x) + ChannelWeight(y)
  {
    if x == [] {
      assert x + y == y;
    } else {
      assert (x + y)[1..] == x[1..] + y;
      ChannelWeightConcat(x[1..], y);
    }
  }

  /** The host only ever refuses, and a refusal weighs one. */
  lemma HostAnswersLightly(m: Msg)
    ensures |HostAnswer(m)| <= 1 && ChannelWeight(HostAnswer(m)) == |HostAnswer(m)|
  {
  }

  /** What one step may add: seven for each message the rule does not allow, and less than nothing
      otherwise. */
  ghost predicate Pays(st: System, st': System) {
    && st.extra <= st'.extra && st.sent <= st'.sent && st'.extra - st.extra <= st'.sent - st.sent
    && Measure(st') + (st'.sent - st.sent) <= Measure(st) + 7 * (st'.extra - st.extra)
    && Measure(st') < Measure(st) + 7 * (st'.extra - st.extra)
  }

  lemma HostStepPays(st: System, st': System)
    requires HostStep(st, st')
    ensures Pays(st, st')
  {
    hide HostAnswer;
    HostAnswersLightly(st.toHost[0]);
    ChannelWeightConcat(st.toClient, HostAnswer(st.toHost[0]));
  }

  lemma ObeysWeight(on: set<byte>, opt: byte, wanted: bool, yes: byte, no: byte, on': set<byte>, answer: seq<Msg>)
    requires Obeys(on, opt, wanted, yes, no, on', answer)
    ensures |answer| <= 1
    ensures 2 * |on'| + 3 * |answer| <= 2 * |on| + if wanted then 5 else 1
  {
    if !wanted && opt in on {
      assert |on - {opt}| == |on| - 1;
    }
  }

  lemma AllowedPays(st: System, st': System, answer: seq<Msg>)
    requires ClientStep(st, st', answer) && Allowed(st, answer)
    ensures Pays(st, st')
  {
    hide Allowed, Obeys;
    var m := st.toClient[0];
    if m.Verb? {
      if m.verb == WILL || m.verb == WONT {
        ObeysWeight(st.us, m.opt, m.verb == WILL, DO, DONT, st'.us, answer);
      } else if m.verb == DO || m.verb == DONT {
        ObeysWeight(st.him, m.opt, m.verb == DO, WILL, WONT, st'.him, answer);
      }
    }
  }

  lemma SilenceIsAllowed(st: System)
    requires st.toClient != []
    ensures Allowed(st, [])
  {
    var m := st.toClient[0];
    var us, him := st.us, st.him;
    if m.Verb? && m.verb == WONT {
      us := us - {m.opt};
    } else if m.Verb? && m.verb == DONT {
      him := him - {m.opt};
    }
    assert ClientAnswers(st, m, us, him, []);
  }

  lemma OtherAnswerPays(st: System, st': System, answer: seq<Msg>)
    requires ClientStep(st, st', answer) && !Allowed(st, answer)
    ensures Pays(st, st')
  {
    SilenceIsAllowed(st);
    assert |answer| >= 1;
    hide Allowed;
    var opt := if st.toClient[0].Verb? then st.toClient[0].opt else 0;
    GrowsByOne(st.us, opt, st'.us);
    GrowsByOne(st.him, opt, st'.him);
  }

  lemma ClientStepPays(st: System, st': System, answer: seq<Msg>)
    requires ClientStep(st, st', answer)
    ensures Pays(st, st')
  {
    hide Pays, Allowed;
    if Allowed(st, answer) {
      AllowedPays(st, st', answer);
    } else {
      OtherAnswerPays(st, st', answer);
    }
  }

  lemma ClientStartsPays(st: System, st': System, m: Msg, opt: byte)
    requires ClientStarts(st, st', m, opt)
    ensures Pays(st, st')
  {
    GrowsByOne(st.us, opt, st'.us);
    GrowsByOne(st.him, opt, st'.him);
  }

  lemma GrowsByOne(on: set<byte>, opt: byte, on': set<byte>)
    requires on' <= on + {opt}
    ensures |on'| <= |on| + 1
  {
    var all := on + {opt};
    assert all == on' + (all - on');
  }

  lemma StepPays(st: System, st': System)
    requires Step(st, st')
    ensures Pays(st, st')
  {
    hide Pays, HostStep, ClientStep, ClientStarts, Allowed;
    if HostStep(st, st') {
      HostStepPays(st, st');
    } else if answer :| ClientStep(st, st', answer) {
      ClientStepPays(st, st', answer);
    } else {
      var m, opt :| ClientStarts(st, st', m, opt);
      ClientStartsPays(st, st', m, opt);
    }
  }

  lemma {:induction false} RunPays(run: seq<System>)
    requires IsRun(run)
    ensures var last := run[|run| - 1];
            && Measure(last) + |run| <= Measure(run[0]) + 7 * last.extra + 1
            && Measure(last) + last.sent <= Measure(run[0]) + 7 * last.extra + |OFFERS|
    decreases |run|
  {
    hide Measure, Step;
    if |run| > 1 {
      var before := run[..|run| - 1];
      RunPays(before);
      assert Step(before[|before| - 1], run[|run| - 1]);
      StepPays(before[|before| - 1], run[|run| - 1]);
    }
  }

  lemma OffersWeight()
    ensures ChannelWeight(OFFERS) == 25
  {
    ChannelWeightConcat(OFFERS[..1], OFFERS[1..]);
    ChannelWeightConcat(OFFERS[1..][..1], OFFERS[2..]);
    ChannelWeightConcat(OFFERS[2..][..1], OFFERS[3..]);
    ChannelWeightConcat(OFFERS[3..][..1], OFFERS[4..]);
    assert OFFERS == OFFERS[..1] + OFFERS[1..];
    assert OFFERS[1..] == OFFERS[1..][..1] + OFFERS[2..];
    assert OFFERS[2..] == OFFERS[2..][..1] + OFFERS[3..];
    assert OFFERS[3..] == OFFERS[3..][..1] + OFFERS[4..];
  }

  /** Against any client: beyond a fixed number of messages, an exchange is as long as the client makes it,
      seven messages for each that the rule does not allow. Against one that follows the rule and begins
      finitely many changes it is finite; and while a message is in transit it can go on, so it ends with
      both channels empty. */
  lemma Quiescence(run: seq<System>)
    requires IsRun(run)
    ensures var first, last := run[0], run[|run| - 1];
            var bound := 25 + 2 * |first.us| + 2 * |first.him| + 7 * last.extra;
            && |run| <= bound + 1
            && last.sent <= |OFFERS| + bound
            && (last.toClient != [] || last.toHost != [] ==> exists next :: Step(last, next) && next.extra == last.extra)
  {
    RunPays(run);
    OffersWeight();
    var last := run[|run| - 1];
    hide Measure;
    if last.toHost != [] {
      var next := HostNext(last);
      assert HostStep(last, next) && Step(last, next);
    } else if last.toClient != [] {
      var next := ClientCanAnswer(last);
    }
  }

  function HostNext(st: System): System
    requires st.toHost != []
  {
    var answer := HostAnswer(st.toHost[0]);
    st.(toHost := st.toHost[1..], toClient := st.toClient + answer, sent := st.sent + |answer|)
  }

  lemma ClientCanAnswer(st: System) returns (st': System)
    requires st.toClient != []
    ensures Step(st, st') && st'.extra == st.extra
  {
    SilenceIsAllowed(st);
    var us, him :| ClientAnswers(st, st.toClient[0], us, him, []);
    st' := System(st.toClient[1..], st.toHost + [], us, him, st.extra, st.sent + 0);
    hide Allowed, ClientAnswers;
    assert ClientStep(st, st', []);
  }

  // ---------------------------------------------------------------------------
  // The exact condition
  // ---------------------------------------------------------------------------

  /** A run that goes on for ever, or rests for ever once it has ended. */
  ghost predicate IsExecution(run: nat -> System) {
    Init(run(0)) && forall k: nat :: run(k + 1) == run(k) || Step(run(k), run(k + 1))
  }

  lemma {:induction false} ExecutionPays(run: nat -> System, k: nat)
    requires IsExecution(run)
    ensures run(k).extra <= run(k).sent
    ensures Measure(run(k)) + run(k).sent <= Measure(run(0)) + 7 * run(k).extra + |OFFERS|
  {
    hide Step, Measure;
    if k > 0 {
      ExecutionPays(run, k - 1);
      assert run(k - 1 + 1) == run(k - 1) || Step(run(k - 1), run(k - 1 + 1));
      if Step(run(k - 1), run(k)) {
        StepPays(run(k - 1), run(k));
      }
    }
  }

  ghost predicate SentWithin(run: nat -> System, n: nat) {
    forall k: nat {:trigger run(k)} :: run(k).sent <= n
  }

  ghost predicate ExtraWithin(run: nat -> System, n: nat) {
    forall k: nat {:trigger run(k)} :: run(k).extra <= n
  }

  /** Finitely many messages are exchanged if and only if the client sends finitely many that the rule does
      not allow. */
  lemma FiniteExactly(run: nat -> System)
    requires IsExecution(run)
    ensures (exists n: nat :: SentWithin(run, n)) <==> (exists n: nat :: ExtraWithin(run, n))
  {
    hide IsExecution, Measure;
    if n: nat :| SentWithin(run, n) {
      forall k: nat ensures run(k).extra <= n {
        ExecutionPays(run, k);
      }
      assert ExtraWithin(run, n);
    }
    if n: nat :| ExtraWithin(run, n) {
      var bound: nat := Measure(run(0)) + 7 * n + |OFFERS|;
      forall k: nat ensures run(k).sent <= bound {
        ExecutionPays(run, k);
      }
      assert SentWithin(run, bound);
    }
  }

  // ---------------------------------------------------------------------------
  // A client that breaks the rule
  // ---------------------------------------------------------------------------

  /** Agrees to everything the host offers, refuses everything it asks, and acknowledges every message,
      whatever is in effect. */
  function StubbornAnswer(m: Msg): seq<Msg> {
    match m
    case Sub => []
    case Verb(verb, opt) =>
      if verb == WILL then [Verb(DO, opt)]
      else if verb == WONT then [Verb(DONT, opt)]
      else [Verb(WONT, opt)]
  }

  ghost predicate StubbornStep(st: System, st': System) {
    HostStep(st, st') || (st.toClient != [] && ClientStep(st, st', StubbornAnswer(st.toClient[0])))
  }

  ghost predicate IsStubbornRun(run: seq<System>) {
    && run != [] && Init(run[0])
    && forall k :: 0 <= k < |run| - 1 ==> StubbornStep(run[k], run[k + 1])
  }

  /** The client agrees, refuses, or has nothing to say. */
  lemma StubbornReads(st: System) returns (st': System)
    requires st.toClient != []
    requires var m := st.toClient[0];
             m.Verb? ==> (m.verb == WILL && m.opt !in st.us) || (m.verb == DO && m.opt !in st.him)
    ensures ClientStep(st, st', StubbornAnswer(st.toClient[0]))
    ensures st'.toClient == st.toClient[1..] && st'.toHost == st.toHost + StubbornAnswer(st.toClient[0])
    ensures st'.sent >= st.sent && st'.him == st.him
    ensures st'.us == st.us + if st.toClient[0].Verb? && st.toClient[0].verb == WILL then {st.toClient[0].opt} else {}
  {
    var m := st.toClient[0];
    var answer := StubbornAnswer(m);
    var us := st.us + if m.Verb? && m.verb == WILL then {m.opt} else {};
    st' := System(st.toClient[1..], st.toHost + answer, us, st.him, st.extra, st.sent + |answer|);
    assert ClientAnswers(st, m, us, st.him, answer);
  }

  /** It acknowledges that an option it has refused is off. */
  lemma StubbornInsists(st: System) returns (st': System)
    requires st.toClient != []
    requires var m := st.toClient[0]; m.Verb? && m.verb == DONT && m.opt !in st.him
    ensures ClientStep(st, st', StubbornAnswer(st.toClient[0]))
    ensures st'.toClient == st.toClient[1..] && st'.toHost == st.toHost + [Verb(WONT, st.toClient[0].opt)]
    ensures st'.sent == st.sent + 1 && st'.extra == st.extra + 1 && st'.us == st.us && st'.him == st.him
  {
    var m := st.toClient[0];
    var answer := [Verb(WONT, m.opt)];
    assert !Allowed(st, answer);
    st' := System(st.toClient[1..], st.toHost + answer, st.us, st.him, st.extra + 1, st.sent + 1);
  }

  /** All it has left to talk about is the two options it refused. */
  predicate Disputing(st: System) {
    && st.toClient == [Verb(DONT, NAWS), Verb(DONT, TTYPE)] && st.toHost == []
    && NAWS !in st.him && TTYPE !in st.him
  }

  lemma Longer(run: seq<System>, next: System) returns (longer: seq<System>)
    requires IsStubbornRun(run) && StubbornStep(run[|run| - 1], next)
    ensures IsStubbornRun(longer) && longer != [] && longer[|longer| - 1] == next
  {
    hide StubbornStep, Init;
    longer := run + [next];
  }

  /** The client has read the opening offers. */
  lemma OffersRead() returns (run: seq<System>)
    ensures IsStubbornRun(run) && run != []
    ensures var st := run[|run| - 1];
            && st.toClient == [] && st.him == {}
            && st.toHost == [Verb(DO, ECHO), Verb(DO, SGA), Verb(WONT, NAWS), Verb(WONT, TTYPE)]
  {
    var s0 := System(OFFERS, [], {}, {}, 0, |OFFERS|);
    run := [s0];
    hide ClientStep, IsStubbornRun;
    var s1 := StubbornReads(s0);
    assert s1.toClient == [Verb(WILL, SGA), Verb(DO, NAWS), Verb(DO, TTYPE), Sub] && s1.toHost == [Verb(DO, ECHO)];
    run := Longer(run, s1);
    var s2 := StubbornReads(s1);
    assert s2.toClient == [Verb(DO, NAWS), Verb(DO, TTYPE), Sub] && s2.toHost == [Verb(DO, ECHO), Verb(DO, SGA)];
    run := Longer(run, s2);
    var s3 := StubbornReads(s2);
    assert s3.toClient == [Verb(DO, TTYPE), Sub];
    assert s3.toHost == [Verb(DO, ECHO), Verb(DO, SGA), Verb(WONT, NAWS)];
    run := Longer(run, s3);
    var s4 := StubbornReads(s3);
    run := Longer(run, s4);
    var s5 := StubbornReads(s4);
    run := Longer(run, s5);
  }

  lemma HostSays(opt: byte)
    ensures HostAnswer(Verb(DO, ECHO)) == [] && HostAnswer(Verb(DO, SGA)) == []
    ensures HostAnswer(Verb(WONT, opt)) == [Verb(DONT, opt)]
  {
  }

  /** From the opening offers to the dispute, in nine steps. */
  lemma DisputeBegins() returns (run: seq<System>)
    ensures IsStubbornRun(run) && run != [] && Disputing(run[|run| - 1])
  {
    run := OffersRead();
    hide IsStubbornRun, HostAnswer, ClientStep;
    HostSays(NAWS);
    HostSays(TTYPE);
    var a := HostNext(run[|run| - 1]);
    run := Longer(run, a);
    var b := HostNext(a);
    run := Longer(run, b);
    var c := HostNext(b);
    run := Longer(run, c);
    var d := HostNext(c);
    run := Longer(run, d);
  }

  /** One round of it. */
  lemma DisputeGoesOn(st: System) returns (a: System, b: System, c: System, d: System)
    requires Disputing(st)
    ensures StubbornStep(st, a) && StubbornStep(a, b) && StubbornStep(b, c) && StubbornStep(c, d)
    ensures Disputing(d) && d.sent == st.sent + 4 && d.extra == st.extra + 2
  {
    hide ClientStep, HostAnswer;
    HostSays(NAWS);
    HostSays(TTYPE);
    a := StubbornInsists(st);
    b := StubbornInsists(a);
    c := HostNext(b);
    d := HostNext(c);
  }

  /** Against this client the host never falls silent: from the opening offers on there are runs with any
      number of messages, since every WONT is answered by DONT. */
  lemma {:induction false} StubbornNeverEnds(n: nat) returns (run: seq<System>)
    ensures IsStubbornRun(run) && run != [] && Disputing(run[|run| - 1]) && run[|run| - 1].sent >= n
  {
    hide StubbornStep, IsStubbornRun, Disputing;
    if n == 0 {
      run := DisputeBegins();
    } else {
      run := StubbornNeverEnds(n - 1);
      var a, b, c, d := DisputeGoesOn(run[|run| - 1]);
      run := Longer(run, a);
      run := Longer(run, b);
      run := Longer(run, c);
      run := Longer(run, d);
    }
  }

  // ---------------------------------------------------------------------------
  // A client that agrees
  // ---------------------------------------------------------------------------

  function Agreement(m: Msg): Msg {
    match m
    case Sub => Sub
    case Verb(verb, opt) => if verb == WILL then Verb(DO, opt) else Verb(WILL, opt)
  }

  ghost predicate AgreeingStep(st: System, st': System) {
    HostStep(st, st') || (st.toClient != [] && ClientStep(st, st', [Agreement(st.toClient[0])]))
  }

  ghost predicate IsAgreeingRun(run: seq<System>) {
    && run != [] && Init(run[0])
    && forall k :: 0 <= k < |run| - 1 ==> AgreeingStep(run[k], run[k + 1])
  }

  /** `k` offers have been answered, and nothing but the answers is on its way back. */
  ghost predicate Agreed(st: System, k: nat) {
    && k <= |OFFERS| && st.toClient == OFFERS[k..] && st.sent == |OFFERS| + k
    && forall i :: 0 <= i < |st.toHost| ==> HostAnswer(st.toHost[i]) == []
  }

  lemma AgreementIsSilent(k: nat)
    requires k < |OFFERS|
    ensures HostAnswer(Agreement(OFFERS[k])) == []
  {
    assert OFFERS[0] == Verb(WILL, ECHO) && OFFERS[1] == Verb(WILL, SGA);
    assert OFFERS[2] == Verb(DO, NAWS) && OFFERS[3] == Verb(DO, TTYPE) && OFFERS[4] == Sub;
  }

  lemma AgreeingStepKeeps(st: System, st': System, k: nat) returns (k': nat)
    requires Agreed(st, k) && AgreeingStep(st, st')
    ensures Agreed(st', k')
  {
    hide HostAnswer, Agreement, Allowed, ClientAnswers;
    k' := k;
    if HostStep(st, st') {
      assert st'.toClient == st.toClient + [] == st.toClient;
    } else {
      k' := k + 1;
      AgreementIsSilent(k);
    }
  }

  lemma {:induction false} AgreeingRun(run: seq<System>) returns (k: nat)
    requires IsAgreeingRun(run)
    ensures Agreed(run[|run| - 1], k)
    decreases |run|
  {
    hide AgreeingStep, Agreed;
    var n := |run| - 1;
    if n == 0 {
      k := 0;
      AgreedAtFirst(run[0]);
    } else {
      var before := AgreeingRun(run[..n]);
      k := AgreeingStepKeeps(run[n - 1], run[n], before);
    }
  }

  lemma AgreedAtFirst(st: System)
    requires Init(st)
    ensures Agreed(st, 0)
  {
  }

  /** A client that agrees to all four offers, and tells its terminal type, draws no further message from the
      host: however the two interleave, nothing is sent but the five opening messages and one answer to each. */
  lemma AgreementSettles(run: seq<System>)
    requires IsAgreeingRun(run)
    ensures var last := run[|run| - 1];
            && (exists k :: 0 <= k <= 5 && last.toClient == OFFERS[k..] && last.sent == 5 + k)
            && (last.toHost != [] ==> HostAnswer(last.toHost[0]) == [])
  {
    hide IsAgreeingRun, HostAnswer;
    var k := AgreeingRun(run);
  }
}
