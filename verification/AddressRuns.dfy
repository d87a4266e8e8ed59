/** Over every run of the server's events, refused commands and all backends included: which event first
  * makes two sessions of a client and type share an address, and which first takes the record of a
  * session away from under it. As long as the latter does not happen, the former does not. */
module AddressRuns {
  import opened Wrappers
  import opened Addresses
  import opened Records
  import opened KeyStore
  import opened DomainAccess
  import opened ForwardState
  import opened ForwardRuns
  import opened ReviewLaws
  import opened NatExactness
  import opened AgreementRuns
  import opened SessionAddresses

  // ----- Events that give no address

  predicate SamePlace(s: DNSSession, t: DNSSession) {
    SameClientAndType(s, t) && s.hostname == t.hostname && s.a == t.a
  }

  /** Every session left is one that was there, at its place. */
  ghost predicate Inherits(st: State, after: State) {
    forall k :: k in after.sessions ==> k in st.sessions && SamePlace(after.sessions[k], st.sessions[k])
  }

  lemma InheritsUnshared(st: State, after: State)
    requires Inherits(st, after) && Unshared(st.sessions)
    ensures Unshared(after.sessions)
  {
    forall k, l | k in after.sessions && l in after.sessions && k != l
      ensures !Clash(after.sessions[k], after.sessions[l])
    {
      assert !Clash(st.sessions[k], st.sessions[l]);
    }
  }

  lemma SamePlaceRooted(reverse: map<string, ReverseDNS>, s: DNSSession, t: DNSSession)
    requires SamePlace(s, t)
    ensures RootedSession(reverse, s) <==> RootedSession(reverse, t)
  {
    assert forall o :: RootedAt(reverse, s, o) == RootedAt(reverse, t, o);
  }

  lemma InheritsRooted(st: State, after: State)
    requires Inherits(st, after) && Rooted(st) && after.reverse == st.reverse
    ensures Rooted(after)
  {
    forall k | k in after.sessions
      ensures RootedSession(after.reverse, after.sessions[k])
    {
      SamePlaceRooted(st.reverse, after.sessions[k], st.sessions[k]);
    }
  }

  lemma {:induction false} ExpireAllRecords(st: State, rs: seq<DNSSession>, now: int, faults: Faults)
    ensures ExpireAll(st, rs, now, faults).reverse == st.reverse
  {
    if rs == [] {
    } else {
      ExpireAllRecords(st, rs[..|rs| - 1], now, faults);
    }
  }

  lemma ChargedInherits(st: State, stats: seq<Stat>, now: int)
    requires WellKeyed(st.sessions)
    ensures
      var charged := ChargeAll(st, GetAll(st.sessions, SESSIONS), stats, now);
      Inherits(st, charged) && charged.reverse == st.reverse
  {
    var rs := GetAll(st.sessions, SESSIONS);
    QueryIsSnapshot(st.sessions);
    ChargeAllExactly(st, rs, stats, now);
    var charged := ChargeAll(st, rs, stats, now);
    forall k | k in charged.sessions
      ensures k in st.sessions && SamePlace(charged.sessions[k], st.sessions[k])
    {
      var i :| 0 <= i < |rs| && rs[i] == st.sessions[k];
      assert KeyOf(rs[i]) == k;
    }
  }

  lemma ReviewInherits(st: State, stats: seq<Stat>, now: int, faults: Faults)
    requires WellKeyed(st.sessions)
    ensures
      var after := ReviewStep(st, stats, now, faults);
      Inherits(st, after) && after.reverse == st.reverse
  {
    var rs := GetAll(st.sessions, SESSIONS);
    var charged := if st.fw.Some? then ChargeAll(st, rs, stats, now) else st;
    ChargedInherits(st, stats, now);
    ExpireAllSubmap(charged, rs, now, faults);
    ExpireAllRecords(charged, rs, now, faults);
  }

  lemma MovedRecords(st: State, s: DNSSession, v: nat, now: int, faults: Faults)
    ensures
      var mid := if st.fw.Some? && s.a.Some? then UpdateIPv4Step(st, s, v, faults).st else st;
      UpdateSession(mid, s.(reasonCode := v, sessionExpiry := now + 330)).reverse == st.reverse
  {
  }

  lemma JudgeInherits(st: State, k: string, ses: SessionInfo, now: int, faults: Faults)
    requires WellKeyed(st.sessions) && k in st.sessions
    ensures
      var after := ReevaluateOne(st, ses, st.sessions[k], now, faults);
      Inherits(st, after) && after.reverse == st.reverse
  {
    var s := st.sessions[k];
    ReevaluateOneStores(st, ses, s, now, faults);
    MovedRecords(st, Written(ses, s), Verdict(ses, s), now, faults);
    assert SamePlace(Reevaluated(ses, s, now), s);
  }

  /** A flush leaves the records of the sessions that it leaves. */
  lemma FlushKeepsRoots(st: State, c: string, faults: Faults)
    requires Invariant(st, true)
    ensures Inherits(st, FlushStep(st, c, faults))
    ensures Rooted(st) ==> Rooted(FlushStep(st, c, faults))
  {
    var after := FlushStep(st, c, faults);
    FlushedSessions(st, c, faults);
    FlushedRecords(st, c, faults);
    forall k | k in after.sessions && RootedSession(st.reverse, st.sessions[k])
      ensures RootedSession(after.reverse, after.sessions[k])
    {
      var s := st.sessions[k];
      FlushLeavesOthers(st, c, k);
      if Address(s) != "" {
        var o :| RootedAt(st.reverse, s, o);
        assert RootedAt(after.reverse, s, o);
      }
    }
  }

  lemma FlushLeavesOthers(st: State, c: string, k: string)
    requires Invariant(st, true) && k in st.sessions && !HasPrefix(k, SessionPrefix(c))
    ensures st.sessions[k].clientIP != c
  {
    if IsClient(c) {
      ClientsSelectOwn(st.sessions, c);
    }
  }

  // ----- Switches

  predicate Switches(st: State, fws: seq<Backend>, name: string) {
    !(st.fw.Some? && st.fw.value.Name() == name) && name != "none" && ChosenBackend(fws, name, st.fw).Some?
  }

  /** The record deleted for an expired session is that of a live one. */
  predicate Undermines(s: DNSSession, t: DNSSession, now: int) {
    && now > s.sessionExpiry && now <= t.sessionExpiry && s.a.Some?
    && SameClientAndType(s, t) && Address(t) == IP4FromOffset(FiledOffset(s))
  }

  /** Only a session at the last address can be undermined, and only by one at the first or without an
    * address. */
  lemma UnderminesExactly(st: State, k: string, l: string, now: int)
    requires WellKeyed(st.sessions) && Rooted(st) && k in st.sessions && l in st.sessions
    ensures
      var s, t := st.sessions[k], st.sessions[l];
      Undermines(s, t, now) <==>
      && now > s.sessionExpiry && now <= t.sessionExpiry && s.a.Some? && SameClientAndType(s, t)
      && Address(t) == IP4FromOffset(MAX_VALUE as Offset)
      && (Address(s) == "" || Address(s) == IP4FromOffset(0))
  {
    var s, t := st.sessions[k], st.sessions[l];
    if s.a.Some? {
      if Address(s) == "" {
        NoAddressIsLast();
      } else {
        var o :| RootedAt(st.reverse, s, o);
        SwitchDropsOwnRecord(s, o);
        if o == 0 {
          assert FiledOffset(s) == MAX_VALUE as Offset;
        } else {
          FirstIsZero(o);
          if Clash(s, t) {
            OneHost(st.reverse, s, t);
          }
        }
      }
    }
  }

  lemma NoAddressIsLast()
    ensures OffsetFromIP4("") == MAX_VALUE
  {
  }

  lemma FirstIsZero(o: Offset)
    ensures IP4FromOffset(o) == IP4FromOffset(0) <==> o == 0
  {
    if IP4FromOffset(o) == IP4FromOffset(0) {
      AddressesDistinct(o, 0);
    }
  }

  ghost predicate SwitchSpares(st: State, now: int) {
    forall k, l :: k in st.sessions && l in st.sessions ==> !Undermines(st.sessions[k], st.sessions[l], now)
  }

  lemma LiveKept(st: State, now: int, k: string)
    requires WellKeyed(st.sessions)
    ensures
      var after := DropExpired(st, GetAll(st.sessions, SESSIONS), now);
      && (k in after.sessions <==> k in st.sessions && now <= st.sessions[k].sessionExpiry)
      && (k in after.sessions ==> after.sessions[k] == st.sessions[k])
  {
    var rs := GetAll(st.sessions, SESSIONS);
    QueryIsSnapshot(st.sessions);
    DropExpiredAt(st, rs, now, k);
    if k in st.sessions {
      assert st.sessions[k] in rs;
    }
  }

  /** A live session keeps its record exactly when no expired one undermines it. */
  lemma LiveRooted(st: State, now: int, k: string, o: Offset)
    requires WellKeyed(st.sessions) && k in st.sessions && now <= st.sessions[k].sessionExpiry
    requires RootedAt(st.reverse, st.sessions[k], o)
    ensures RootedAt(DropExpired(st, GetAll(st.sessions, SESSIONS), now).reverse, st.sessions[k], o) <==>
            forall l :: l in st.sessions ==> !Undermines(st.sessions[l], st.sessions[k], now)
  {
    var rs, t := GetAll(st.sessions, SESSIONS), st.sessions[k];
    var rk := ReverseKey(t.clientIP, t.qtype, o);
    QueryIsSnapshot(st.sessions);
    DropExpiredAt(st, rs, now, rk);
    if RecordDropped(rs, now, rk) {
      var s :| s in rs && now > s.sessionExpiry && s.a.Some? && ReverseKey(s.clientIP, s.qtype, FiledOffset(s)) == rk;
      ReverseKeyInjective(s.clientIP, s.qtype, FiledOffset(s), t.clientIP, t.qtype, o);
      assert Undermines(st.sessions[KeyOf(s)], t, now);
    }
    if l :| l in st.sessions && Undermines(st.sessions[l], t, now) {
      AddressesDistinct(FiledOffset(st.sessions[l]), o);
      assert st.sessions[l] in rs;
    }
  }

  lemma LiveStaysRooted(st: State, now: int, k: string)
    requires WellKeyed(st.sessions) && k in st.sessions && now <= st.sessions[k].sessionExpiry
    requires RootedSession(st.reverse, st.sessions[k])
    ensures RootedSession(DropExpired(st, GetAll(st.sessions, SESSIONS), now).reverse, st.sessions[k]) <==>
            forall l :: l in st.sessions ==> !Undermines(st.sessions[l], st.sessions[k], now)
  {
    var t := st.sessions[k];
    if Address(t) == "" {
      forall l | l in st.sessions
        ensures !Undermines(st.sessions[l], t, now)
      {
        if st.sessions[l].a.Some? {
          AddressNotEmpty(FiledOffset(st.sessions[l]));
        }
      }
    } else {
      var o :| RootedAt(st.reverse, t, o);
      LiveRooted(st, now, k, o);
      RootedIsAt(DropExpired(st, GetAll(st.sessions, SESSIONS), now).reverse, t, o);
    }
  }

  lemma DropExpiredRootedExactly(st: State, now: int)
    requires WellKeyed(st.sessions) && Rooted(st)
    ensures Rooted(DropExpired(st, GetAll(st.sessions, SESSIONS), now)) <==> SwitchSpares(st, now)
  {
    var after := DropExpired(st, GetAll(st.sessions, SESSIONS), now);
    forall k | k in st.sessions
      ensures k in after.sessions <==> now <= st.sessions[k].sessionExpiry
      ensures k in after.sessions ==> after.sessions[k] == st.sessions[k]
      ensures k in after.sessions ==>
                (RootedSession(after.reverse, st.sessions[k]) <==>
                 forall l :: l in st.sessions ==> !Undermines(st.sessions[l], st.sessions[k], now))
    {
      LiveKept(st, now, k);
      if now <= st.sessions[k].sessionExpiry {
        LiveStaysRooted(st, now, k);
      }
    }
    forall k | k in after.sessions
      ensures k in st.sessions
    {
      LiveKept(st, now, k);
    }
  }

  lemma SwitchInherits(st: State, fws: seq<Backend>, name: string, now: int, faults: Faults)
    requires WellKeyed(st.sessions)
    ensures Inherits(st, SetActiveStep(st, fws, name, now, faults))
  {
    DropExpiredRemoves(st, GetAll(st.sessions, SESSIONS), now);
  }

  // ----- Each event

  /** The event gives no address that another session of the client and type stands at. */
  ghost predicate GivesApart(st: State, ev: ServerEvent)
    requires Occurs(st, ev)
  {
    match ev
    case FirstAnswer(s, _) => GivenApart(st, s)
    case FreshAnswer(k, a, ses, _, now, _) => GivenApart(st, Refreshed(st.sessions[k], a, ses, now))
    case _ => true
  }

  /** The event deletes no record that another, live session stands at. */
  ghost predicate Spares(st: State, ev: ServerEvent)
    requires Occurs(st, ev)
  {
    match ev
    case FreshAnswer(k, a, ses, _, now, _) => ReleaseSpares(st, Refreshed(st.sessions[k], a, ses, now))
    case SetActive(fws, name, now, _) => Switches(st, fws, name) ==> SwitchSpares(st, now)
    case _ => true
  }

  lemma QuietEvent(st: State, ev: ServerEvent)
    requires Invariant(st, true) && Occurs(st, ev) && (ev.CachedAnswer? || ev.Judge? || ev.Review?)
    ensures Inherits(st, Serve(st, ev)) && Serve(st, ev).reverse == st.reverse
  {
    match ev
    case CachedAnswer(k, ses) =>
    case Judge(k, ses, now, faults) => JudgeInherits(st, k, ses, now, faults);
    case Review(stats, now, faults) => ReviewInherits(st, stats, now, faults);
  }

  lemma ServeUnsharedExactly(st: State, ev: ServerEvent)
    requires Invariant(st, true) && Unshared(st.sessions) && Occurs(st, ev)
    ensures Unshared(Serve(st, ev).sessions) <==> GivesApart(st, ev)
  {
    match ev
    case FirstAnswer(s, faults) => AnswerUnsharedExactly(st, s, s.interfaceIP, faults);
    case FreshAnswer(k, a, ses, ifIP, now, faults) =>
      AnswerUnsharedExactly(st, Refreshed(st.sessions[k], a, ses, now), ifIP, faults);
    case Flush(c, faults) =>
      FlushKeepsRoots(st, c, faults);
      InheritsUnshared(st, FlushStep(st, c, faults));
    case SetActive(fws, name, now, faults) =>
      SwitchInherits(st, fws, name, now, faults);
      InheritsUnshared(st, SetActiveStep(st, fws, name, now, faults));
    case _ =>
      QuietEvent(st, ev);
      InheritsUnshared(st, Serve(st, ev));
  }

  lemma FreshIsRooted(st: State, k: string, a: Option<ARecord>, ses: SessionInfo, now: int)
    requires Rooted(st) && k in st.sessions && (a == st.sessions[k].a || (a.Some? && a.value.allocatedIP == ""))
    ensures RootedSession(st.reverse, Refreshed(st.sessions[k], a, ses, now))
  {
    if a == st.sessions[k].a {
      SamePlaceRooted(st.reverse, Refreshed(st.sessions[k], a, ses, now), st.sessions[k]);
    }
  }

  lemma SwitchRootedExactly(st: State, fws: seq<Backend>, name: string, now: int, faults: Faults)
    requires WellKeyed(st.sessions) && Rooted(st)
    ensures Rooted(SetActiveStep(st, fws, name, now, faults)) <==> (Switches(st, fws, name) ==> SwitchSpares(st, now))
  {
    if Switches(st, fws, name) {
      DropExpiredRootedExactly(st, now);
    }
  }

  lemma ServeRootedExactly(st: State, ev: ServerEvent)
    requires Invariant(st, true) && Rooted(st) && Occurs(st, ev)
    ensures Rooted(Serve(st, ev)) <==> Spares(st, ev)
  {
    match ev
    case FirstAnswer(s, faults) => AnswerRootedExactly(st, s, s.interfaceIP, faults);
    case FreshAnswer(k, a, ses, ifIP, now, faults) =>
      FreshIsRooted(st, k, a, ses, now);
      AnswerRootedExactly(st, Refreshed(st.sessions[k], a, ses, now), ifIP, faults);
    case Flush(c, faults) => FlushKeepsRoots(st, c, faults);
    case SetActive(fws, name, now, faults) => SwitchRootedExactly(st, fws, name, now, faults);
    case _ =>
      QuietEvent(st, ev);
      InheritsRooted(st, Serve(st, ev));
  }

  // ----- Every run

  ghost predicate GivesApartAt(events: seq<ServerEvent>, i: nat)
    requires i < |events|
  {
    Occurs(Before(events, i), events[i]) ==> GivesApart(Before(events, i), events[i])
  }

  ghost predicate SparesAt(events: seq<ServerEvent>, i: nat)
    requires i < |events|
  {
    Occurs(Before(events, i), events[i]) ==> Spares(Before(events, i), events[i])
  }

  lemma RunTurn(events: seq<ServerEvent>, i: nat)
    requires i < |events|
    ensures Before(events, i + 1) == Serve(Before(events, i), events[i]) && Invariant(Before(events, i), true)
  {
    assert events[..i + 1][..i] == events[..i];
    RunsKeepInvariant(events[..i]);
  }

  lemma UnsharedTurn(events: seq<ServerEvent>, i: nat)
    requires i < |events| && Unshared(Before(events, i).sessions)
    ensures Unshared(Before(events, i + 1).sessions) <==> GivesApartAt(events, i)
  {
    RunTurn(events, i);
    if Occurs(Before(events, i), events[i]) {
      ServeUnsharedExactly(Before(events, i), events[i]);
    }
  }

  lemma RootedTurn(events: seq<ServerEvent>, i: nat)
    requires i < |events| && Rooted(Before(events, i))
    ensures Rooted(Before(events, i + 1)) <==> SparesAt(events, i)
  {
    RunTurn(events, i);
    if Occurs(Before(events, i), events[i]) {
      ServeRootedExactly(Before(events, i), events[i]);
    }
  }

  /** Sessions of a client and type share no address throughout a run exactly when every answer is given
    * one that no other of them stands at: the first that is not makes the first two share. */
  lemma RunsUnsharedExactly(events: seq<ServerEvent>)
    ensures (forall n: nat :: n <= |events| ==> Unshared(Before(events, n).sessions)) <==>
            (forall i: nat :: i < |events| ==> GivesApartAt(events, i))
  {
    var holds := seq(|events| + 1, i requires 0 <= i <= |events| => Unshared(Before(events, i).sessions));
    var keeps := seq(|events|, i requires 0 <= i < |events| => GivesApartAt(events, i));
    forall i | 0 <= i < |events| && holds[i]
      ensures holds[i + 1] <==> keeps[i]
    {
      UnsharedTurn(events, i);
    }
    Throughout(holds, keeps);
    assert forall n: nat :: n <= |events| ==> holds[n] == Unshared(Before(events, n).sessions);
    assert forall i: nat :: i < |events| ==> keeps[i] == GivesApartAt(events, i);
  }

  /** Every session stands at a record of its own throughout a run exactly when no event deletes the
    * record of another, live session. */
  lemma RunsRootedExactly(events: seq<ServerEvent>)
    ensures (forall n: nat :: n <= |events| ==> Rooted(Before(events, n))) <==>
            (forall i: nat :: i < |events| ==> SparesAt(events, i))
  {
    var holds := seq(|events| + 1, i requires 0 <= i <= |events| => Rooted(Before(events, i)));
    var keeps := seq(|events|, i requires 0 <= i < |events| => SparesAt(events, i));
    forall i | 0 <= i < |events| && holds[i]
      ensures holds[i + 1] <==> keeps[i]
    {
      RootedTurn(events, i);
    }
    Throughout(holds, keeps);
    assert forall n: nat :: n <= |events| ==> holds[n] == Rooted(Before(events, n));
    assert forall i: nat :: i < |events| ==> keeps[i] == SparesAt(events, i);
  }

  /** So no two sessions of a client and type share an address before some event has deleted the record
    * of a live one. */
  lemma SharingFollowsUprooting(events: seq<ServerEvent>, n: nat)
    requires n <= |events| && forall i: nat :: i < n ==> SparesAt(events, i)
    ensures Unshared(Before(events, n).sessions)
  {
    var run := events[..n];
    forall i: nat | i < n
      ensures SparesAt(run, i)
    {
      assert run[..i] == events[..i] && run[i] == events[i];
      assert SparesAt(events, i);
    }
    RunsRootedExactly(run);
    assert run[..n] == run == events[..n];
    assert Rooted(Before(run, n));
    RunsKeepInvariant(run);
    RootedUnshared(Before(run, n));
  }
}
