/** Over every run of answers, re-evaluations, reviews, flushes and backend switches, refused commands
  * included: the NAT table agrees with the stored sessions throughout, whenever iptables is active,
  * exactly when each event leaves them in agreement by the condition proved for it. */
module AgreementRuns {
  import opened Wrappers
  import opened Records
  import opened KeyStore
  import opened DomainAccess
  import opened ForwardState
  import opened ForwardRuns
  import opened NatAgreement
  import opened NatExactness
  import opened NatRemovals

  /** What the server does to the forwarding state. A first answer comes with the session it will
    * store; an answer to a stored name is given from the store, or with the A record that fresh
    * upstream records make of the old one; a re-evaluation judges one session after the other. */
  datatype ServerEvent =
    | FirstAnswer(session: DNSSession, faults: Faults)
    | CachedAnswer(key: string, ses: SessionInfo)
    | FreshAnswer(key: string, a: Option<ARecord>, ses: SessionInfo, ifIP: string, now: int, faults: Faults)
    | Judge(key: string, ses: SessionInfo, now: int, faults: Faults)
    | Review(stats: seq<Stat>, now: int, faults: Faults)
    | Flush(clientIP: string, faults: Faults)
    | SetActive(fws: seq<Backend>, name: string, now: int, faults: Faults)

  /** What the server's own code ensures of an event: the client of an answer is cut at the colon, a
    * first answer is for a name without a session and has no address yet, the other session events
    * are for stored ones, and a record taken from upstream has no address yet. A flush is for whatever
    * a form asks for. */
  ghost predicate Occurs(st: State, ev: ServerEvent) {
    match ev
    case FirstAnswer(s, _) =>
      IsClient(s.clientIP) && KeyOf(s) !in st.sessions && (s.a.Some? ==> s.a.value.allocatedIP == "")
    case CachedAnswer(k, _) => k in st.sessions
    case FreshAnswer(k, a, _, _, _, _) =>
      k in st.sessions && (a == st.sessions[k].a || (a.Some? && a.value.allocatedIP == ""))
    case Judge(k, _, _, _) => k in st.sessions
    case Review(_, _, _) => true
    case Flush(_, _) => true
    case SetActive(_, _, _, _) => true
  }

  /** The session a fresh answer allocates for: the new record, the verdict, a new expiry. */
  ghost function Refreshed(s: DNSSession, a: Option<ARecord>, ses: SessionInfo, now: int): DNSSession {
    s.(a := a, reasonCode := Verdict(ses, s), sessionExpiry := now + 330)
  }

  ghost function Effect(st: State, ev: ServerEvent): State
    requires Occurs(st, ev)
  {
    match ev
    case FirstAnswer(s, faults) => StoreAnswer(st, s, s.interfaceIP, faults)
    case CachedAnswer(k, ses) => StoreVerdict(st, ses, st.sessions[k])
    case FreshAnswer(k, a, ses, ifIP, now, faults) =>
      StoreAnswer(st, Refreshed(st.sessions[k], a, ses, now), ifIP, faults)
    case Judge(k, ses, now, faults) => ReevaluateOne(st, ses, st.sessions[k], now, faults)
    case Review(stats, now, faults) => ReviewStep(st, stats, now, faults)
    case Flush(c, faults) => FlushStep(st, c, faults)
    case SetActive(fws, name, now, faults) => SetActiveStep(st, fws, name, now, faults)
  }

  ghost function Serve(st: State, ev: ServerEvent): State {
    if Occurs(st, ev) then Effect(st, ev) else st
  }

  ghost function ServeAll(st: State, events: seq<ServerEvent>): State {
    if events == [] then st else Serve(ServeAll(st, events[..|events| - 1]), events[|events| - 1])
  }

  ghost predicate Agreeing(st: State) {
    st.fw == Some(IpTables) ==> AgreesForAll(st)
  }

  /** The backend is iptables from this switch on. */
  predicate SwitchesToIpTables(st: State, fws: seq<Backend>, name: string) {
    !(st.fw.Some? && st.fw.value.Name() == name) && name != "none" && ChosenBackend(fws, name, st.fw) == Some(IpTables)
  }

  /** Before the event: whether rules and sessions will agree after it. */
  ghost predicate Fits(st: State, ev: ServerEvent)
    requires Occurs(st, ev)
  {
    match ev
    case SetActive(fws, name, now, faults) => SwitchesToIpTables(st, fws, name) ==> SwitchAccepted(st, now, faults)
    case _ => st.fw == Some(IpTables) ==> FitsActive(st, ev)
  }

  ghost predicate FitsActive(st: State, ev: ServerEvent)
    requires Occurs(st, ev) && !ev.SetActive?
  {
    match ev
    case FirstAnswer(s, faults) =>
      Assigns(st, s) ==> HasRule(Rehoused(st, s)) ==> RuleOf(Rehoused(st, s)) !in faults.append
    case CachedAnswer(k, ses) => VerdictUnseen(ses, st.sessions[k])
    case FreshAnswer(k, a, ses, ifIP, now, faults) =>
      RefreshFits(st, st.sessions[k], Refreshed(st.sessions[k], a, ses, now), ifIP, faults)
    case Judge(k, ses, now, faults) => KeepsRule(st, ses, st.sessions[k], faults)
    case Review(_, _, _) => true
    case Flush(c, faults) => FlushAccepted(st, c, faults)
  }

  // ----- Each event keeps the invariant

  lemma AnswerKeepsInvariant(st: State, s: DNSSession, ifIP: string, faults: Faults)
    requires Invariant(st, true) && IsClient(s.clientIP)
    ensures Invariant(StoreAnswer(st, s, ifIP, faults), true)
  {
    var al := AllocateStep(st, s, ifIP, faults);
    AllocateKeeps(st, s, ifIP, faults, true);
    assert al.session.clientIP == s.clientIP;
    StepKeepsInvariant(al.st, StoreEvent(al.session), true);
  }

  lemma JudgeKeepsInvariant(st: State, s: DNSSession, ses: SessionInfo, now: int, faults: Faults)
    requires Invariant(st, true) && IsClient(s.clientIP)
    ensures Invariant(ReevaluateOne(st, ses, s, now, faults), true)
  {
    assert ReevaluateAll(st, ses, [s][..0], now, faults) == st;
    assert ReevaluateAll(st, ses, [s], now, faults) == ReevaluateOne(st, ses, s, now, faults);
    ReevaluateKeeps(st, ses, [s], now, faults, true);
  }

  lemma SessionEventKeepsInvariant(st: State, ev: ServerEvent)
    requires Invariant(st, true) && Occurs(st, ev) && (ev.CachedAnswer? || ev.FreshAnswer? || ev.Judge?)
    ensures Invariant(Serve(st, ev), true)
  {
    var s := st.sessions[ev.key];
    match ev
    case CachedAnswer(_, ses) =>
    case FreshAnswer(_, a, ses, ifIP, now, faults) =>
      AnswerKeepsInvariant(st, Refreshed(s, a, ses, now), ifIP, faults);
    case Judge(_, ses, now, faults) => JudgeKeepsInvariant(st, s, ses, now, faults);
  }

  lemma ServeKeepsInvariant(st: State, ev: ServerEvent)
    requires Invariant(st, true)
    ensures Invariant(Serve(st, ev), true)
  {
    if Occurs(st, ev) {
      match ev
      case FirstAnswer(s, faults) => AnswerKeepsInvariant(st, s, s.interfaceIP, faults);
      case Review(stats, now, faults) => ReviewKeeps(st, stats, now, faults, true);
      case Flush(c, faults) => FlushKeeps(st, c, faults, true);
      case SetActive(fws, name, now, faults) => SetActiveKeeps(st, fws, name, now, faults, true);
      case _ => SessionEventKeepsInvariant(st, ev);
    }
  }

  // ----- Only a switch changes the backend

  lemma {:induction false} ChargeOneBackend(st: State, rs: seq<DNSSession>, stat: Stat, now: int)
    ensures ChargeOne(st, rs, stat, now).fw == st.fw
  {
    if rs == [] {
    } else {
      ChargeOneBackend(st, rs[1..], stat, now);
    }
  }

  lemma {:induction false} ChargeAllBackend(st: State, rs: seq<DNSSession>, stats: seq<Stat>, now: int)
    ensures ChargeAll(st, rs, stats, now).fw == st.fw
  {
    if stats == [] {
    } else {
      ChargeAllBackend(st, rs, stats[..|stats| - 1], now);
      ChargeOneBackend(ChargeAll(st, rs, stats[..|stats| - 1], now), rs, stats[|stats| - 1], now);
    }
  }

  lemma {:induction false} ExpireAllBackend(st: State, rs: seq<DNSSession>, now: int, faults: Faults)
    ensures ExpireAll(st, rs, now, faults).fw == st.fw
  {
    if rs == [] {
    } else {
      ExpireAllBackend(st, rs[..|rs| - 1], now, faults);
    }
  }

  lemma ServeKeepsBackend(st: State, ev: ServerEvent)
    requires !ev.SetActive?
    ensures Serve(st, ev).fw == st.fw
  {
    match ev
    case FirstAnswer(s, faults) =>
    case CachedAnswer(k, ses) =>
    case FreshAnswer(k, a, ses, ifIP, now, faults) =>
    case Judge(k, ses, now, faults) =>
    case Review(stats, now, faults) =>
      var rs := GetAll(st.sessions, SESSIONS);
      ChargeAllBackend(st, rs, stats, now);
      ExpireAllBackend(if st.fw.Some? then ChargeAll(st, rs, stats, now) else st, rs, now, faults);
    case Flush(c, faults) =>
      FlushAllRemoves(st, GetAll(st.sessions, SessionPrefix(c)), faults);
  }

  // ----- Each event keeps agreement exactly when it fits

  lemma ActiveServeExactly(st: State, ev: ServerEvent)
    requires Invariant(st, true) && AgreesForAll(st) && st.fw == Some(IpTables) && Occurs(st, ev) && !ev.SetActive?
    ensures AgreesForAll(Serve(st, ev)) <==> FitsActive(st, ev)
  {
    match ev
    case FirstAnswer(s, faults) => FirstAnswerExactly(st, s, faults);
    case CachedAnswer(k, ses) => CachedAnswerExactly(st, ses, st.sessions[k]);
    case FreshAnswer(k, a, ses, ifIP, now, faults) =>
      RefreshExactly(st, st.sessions[k], Refreshed(st.sessions[k], a, ses, now), ifIP, faults);
    case Judge(k, ses, now, faults) => ReevaluateOneExactly(st, ses, st.sessions[k], now, faults);
    case Review(stats, now, faults) => ReviewKeepsAgreement(st, stats, now, faults);
    case Flush(c, faults) => FlushKeepsAgreement(st, c, faults);
  }

  lemma SwitchExactly(st: State, fws: seq<Backend>, name: string, now: int, faults: Faults)
    requires Invariant(st, true) && Agreeing(st)
    ensures Agreeing(SetActiveStep(st, fws, name, now, faults)) <==>
            (SwitchesToIpTables(st, fws, name) ==> SwitchAccepted(st, now, faults))
  {
    if SwitchesToIpTables(st, fws, name) {
      SwitchEstablishesAgreement(st, fws, name, now, faults);
    }
  }

  lemma ServeExactly(st: State, ev: ServerEvent)
    requires Invariant(st, true) && Agreeing(st) && Occurs(st, ev)
    ensures Agreeing(Serve(st, ev)) <==> Fits(st, ev)
  {
    if ev.SetActive? {
      SwitchExactly(st, ev.fws, ev.name, ev.now, ev.faults);
    } else {
      ServeKeepsBackend(st, ev);
      if st.fw == Some(IpTables) {
        ActiveServeExactly(st, ev);
      }
    }
  }

  // ----- Every run

  /** The state the `i`-th event of a run from the start finds. */
  ghost function Before(events: seq<ServerEvent>, i: nat): State
    requires i <= |events|
  {
    ServeAll(START, events[..i])
  }

  lemma {:induction false} RunsKeepInvariant(events: seq<ServerEvent>)
    ensures Invariant(ServeAll(START, events), true)
  {
    if events == [] {
    } else {
      RunsKeepInvariant(events[..|events| - 1]);
      ServeKeepsInvariant(ServeAll(START, events[..|events| - 1]), events[|events| - 1]);
    }
  }

  ghost predicate FitsAt(events: seq<ServerEvent>, i: nat)
    requires i < |events|
  {
    Occurs(Before(events, i), events[i]) ==> Fits(Before(events, i), events[i])
  }

  lemma RunStep(events: seq<ServerEvent>, i: nat)
    requires i < |events| && Agreeing(Before(events, i))
    ensures Agreeing(Before(events, i + 1)) <==> FitsAt(events, i)
  {
    assert events[..i + 1][..i] == events[..i];
    RunsKeepInvariant(events[..i]);
    if Occurs(Before(events, i), events[i]) {
      ServeExactly(Before(events, i), events[i]);
    }
  }

  /** Rules and sessions agree throughout a run, whenever iptables is active, exactly when every event
    * fits the state it finds: the first event that does not is where they part. */
  lemma RunsAgreeExactly(events: seq<ServerEvent>)
    ensures (forall n: nat :: n <= |events| ==> Agreeing(Before(events, n))) <==>
            (forall i: nat :: i < |events| ==> FitsAt(events, i))
  {
    var holds := seq(|events| + 1, i requires 0 <= i <= |events| => Agreeing(Before(events, i)));
    var keeps := seq(|events|, i requires 0 <= i < |events| => FitsAt(events, i));
    forall i | 0 <= i < |events| && holds[i]
      ensures holds[i + 1] <==> keeps[i]
    {
      RunStep(events, i);
    }
    Throughout(holds, keeps);
    assert forall n: nat :: n <= |events| ==> holds[n] == Agreeing(Before(events, n));
    assert forall i: nat :: i < |events| ==> keeps[i] == FitsAt(events, i);
  }

  /** An event with nothing refused that is not an answer to a stored name, and judges with a profile
    * or rejects. */
  predicate Plain(ev: ServerEvent) {
    match ev
    case CachedAnswer(_, _) => false
    case FreshAnswer(_, _, _, _, _, _) => false
    case Judge(_, ses, _, faults) => faults == NONE && (ses.accessProfile.Some? || IsRejected(ses.rejectReason))
    case FirstAnswer(_, faults) => faults == NONE
    case Review(_, _, faults) => faults == NONE
    case Flush(_, faults) => faults == NONE
    case SetActive(_, _, _, faults) => faults == NONE
  }

  lemma PlainFits(st: State, ev: ServerEvent)
    requires Invariant(st, true) && Agreeing(st) && Occurs(st, ev) && Plain(ev)
    ensures Fits(st, ev)
  {
    if ev.Judge? && st.fw == Some(IpTables) {
      RefusedExactly(st, ev.ses, st.sessions[ev.key], ev.now, ev.faults);
    }
  }

  /** Plain events fit wherever they occur, so a run of them agrees throughout. */
  lemma {:induction false} RunsAgree(events: seq<ServerEvent>, n: nat)
    requires (forall ev :: ev in events ==> Plain(ev)) && n <= |events|
    ensures Agreeing(Before(events, n))
  {
    if n == 0 {
      assert events[..0] == [];
    } else {
      RunsAgree(events, n - 1);
      RunStep(events, n - 1);
      RunsKeepInvariant(events[..n - 1]);
      if Occurs(Before(events, n - 1), events[n - 1]) {
        PlainFits(Before(events, n - 1), events[n - 1]);
      }
    }
  }

  // ----- A re-evaluation as a run

  lemma ServeJudge(st: State, s: DNSSession, ses: SessionInfo, now: int, faults: Faults)
    requires KeyOf(s) in st.sessions && st.sessions[KeyOf(s)] == s
    ensures Serve(st, Judge(KeyOf(s), ses, now, faults)) == ReevaluateOne(st, ses, s, now, faults)
  {
  }

  /** Every turn of the loop over stored sessions, as its query lists them, serves the judgement of one
    * of them. */
  lemma TurnIsJudgement(st: State, ses: SessionInfo, rs: seq<DNSSession>, now: int, faults: Faults, i: nat)
    requires Stored(st.sessions, rs) && i < |rs|
    ensures AtTurn(st, ses, rs, now, faults, i + 1)
         == Serve(AtTurn(st, ses, rs, now, faults, i), Judge(KeyOf(rs[i]), ses, now, faults))
  {
    assert rs[..i + 1][..i] == rs[..i];
    ReevaluateOthers(st, ses, rs[..i], now, faults, KeyOf(rs[i]));
    ServeJudge(AtTurn(st, ses, rs, now, faults, i), rs[i], ses, now, faults);
  }
}
