/** Exactly when a re-evaluation or an answer keeps the NAT table in agreement with the sessions:
  * refused commands, look-ups without a profile and answers to stored names included. */
module NatExactness {
  import opened Wrappers
  import opened Addresses
  import opened Records
  import opened OffsetScan
  import opened KeyStore
  import opened DomainAccess
  import opened ForwardState
  import opened ForwardRuns
  import opened AllocationLaws
  import opened NatAgreement

  // ----- One session updated

  /** The filter finds the rule of `s` and lets it go. */
  predicate Moves(st: State, s: DNSSession, faults: Faults) {
    HasRule(s) && RuleOf(s) in st.table && RuleOf(s) !in faults.delete
  }

  /** What moving the rule of `s` to that of `s'` takes out of the table, and what it puts in. */
  function Lost(st: State, s: DNSSession, faults: Faults): multiset<NatRule> {
    if Moves(st, s, faults) then multiset{RuleOf(s)} else multiset{}
  }

  function Gained(st: State, s: DNSSession, s': DNSSession, faults: Faults): multiset<NatRule> {
    if Moves(st, s, faults) && RuleOf(s') !in faults.append then multiset{RuleOf(s')} else multiset{}
  }

  /** What an update does: `s` stands under its key, or is what the verdict left of the session that does. */
  lemma UpdateMoves(st: State, s: DNSSession, newReason: nat, faults: Faults)
    requires Agrees(st, s.clientIP) && st.fw == Some(IpTables) && s.a.Some? && KeyOf(s) in st.sessions
    ensures
      var s' := s.(reasonCode := newReason);
      var after := UpdateIPv4Step(st, s, newReason, faults);
      && after.st.table + Lost(st, s, faults) == st.table + Gained(st, s, s', faults)
      && after.st.sessions == (if Moves(st, s, faults) then st.sessions[KeyOf(s) := s'] else st.sessions)
      && after.session == (if Moves(st, s, faults) then s' else s)
      && (after.ok <==> Moves(st, s, faults) && RuleOf(s') !in faults.append)
      && after.st.fw == st.fw && after.st.reverse == st.reverse
  {
    if RuleOf(s) in st.table {
      TableRules(st, RuleOf(s));
    }
  }

  lemma Swapped<T>(had: T, lost: T, gained: T)
    ensures multiset{gained} + multiset{had} == multiset{lost} + multiset{gained} <==> had == lost
    ensures multiset{had} != multiset{lost} + multiset{gained}
    ensures multiset{had} == multiset{gained} <==> had == gained
  {
    if multiset{gained} + multiset{had} == multiset{lost} + multiset{gained} {
      assert multiset{had} == multiset{lost} + multiset{gained} - multiset{gained} == multiset{lost};
      assert had in multiset{lost};
    }
    assert |multiset{had}| == 1 && |multiset{lost} + multiset{gained}| == 2;
    assert had in multiset{had};
  }

  /** The rule of `s` becomes that of `s'` in table and sessions alike: in both, or in neither. */
  predicate KeepsMove(st: State, had: DNSSession, s: DNSSession, s': DNSSession, faults: Faults) {
    || !HasRule(s)
    || (if Moves(st, s, faults) then RuleOf(s) == RuleOf(had) && RuleOf(s') !in faults.append
        else RuleOf(s') == RuleOf(had))
  }

  lemma MoveBalance(st: State, had: DNSSession, s: DNSSession, s': DNSSession, faults: Faults)
    requires HasRule(had) == HasRule(s) == HasRule(s')
    ensures Gained(st, s, s', faults) + RuleBag(had) == Lost(st, s, faults) + RuleBag(s')
       <==> KeepsMove(st, had, s, s', faults)
  {
    Swapped(RuleOf(had), RuleOf(s), RuleOf(s'));
    assert multiset{} + RuleBag(had) == RuleBag(had) && multiset{} + RuleBag(s') == RuleBag(s');
  }

  /** No rule of another client changes, and with `kept` no rule is won or lost. */
  ghost predicate SameElsewhere(st: State, after: State, c: string, kept: bool) {
    && after.reverse == st.reverse && after.fw == st.fw && (kept ==> |after.table| == |st.table|)
    && forall r: NatRule :: r.source != c ==> after.table[r] == st.table[r]
  }

  lemma MoveSizes(st: State, after: State, had: DNSSession, s: DNSSession, s': DNSSession, faults: Faults)
    requires HasRule(had) == HasRule(s) && KeepsMove(st, had, s, s', faults)
    requires after.table + Lost(st, s, faults) == st.table + Gained(st, s, s', faults)
    ensures |after.table| == |st.table|
  {
    assert |after.table + Lost(st, s, faults)| == |st.table + Gained(st, s, s', faults)|;
  }

  /** One update keeps agreement, and then the number of rules, exactly unless the rule is moved and
    * its successor refused; it stops unchanged exactly when there is no rule or it cannot be deleted. */
  lemma UpdateIPv4Exactly(st: State, s: DNSSession, newReason: nat, faults: Faults)
    requires Agrees(st, s.clientIP) && st.fw == Some(IpTables) && s.a.Some?
    requires KeyOf(s) in st.sessions && st.sessions[KeyOf(s)] == s
    ensures
      var s' := s.(reasonCode := newReason);
      var after := UpdateIPv4Step(st, s, newReason, faults);
      var moved := HasRule(s) && RuleOf(s) !in faults.delete;
      var kept := !moved || RuleOf(s') !in faults.append;
      && (Agrees(after.st, s.clientIP) <==> kept) && SameElsewhere(st, after.st, s.clientIP, kept)
      && after.st.sessions == st.sessions[KeyOf(s) := after.session]
      && after.session == (if moved then s' else s)
      && (after.ok <==> moved && RuleOf(s') !in faults.append)
  {
    var s', after := s.(reasonCode := newReason), UpdateIPv4Step(st, s, newReason, faults);
    UpdateMoves(st, s, newReason, faults);
    if HasRule(s) {
      StoredRuleInTable(st, KeyOf(s));
    }
    if Moves(st, s, faults) {
      SameBeside(st.sessions, KeyOf(s), s');
      BalanceOf(st, after.st, KeyOf(s), Lost(st, s, faults), Gained(st, s, s', faults), s.clientIP);
      MoveBalance(st, s, s, s', faults);
      if RuleOf(s') !in faults.append {
        MoveSizes(st, after.st, s, s, s', faults);
      }
    } else {
      assert after.st.sessions == st.sessions;
      assert after.st.table == st.table;
    }
  }

  // ----- One session re-evaluated

  /** The stored session after its verdict. */
  ghost function Reevaluated(ses: SessionInfo, s: DNSSession, now: int): DNSSession {
    if Verdict(ses, s) == Written(ses, s).reasonCode then s
    else s.(reasonCode := Verdict(ses, s), sessionExpiry := now + 330)
  }

  /** The verdict is no news, or the rule of the session follows it; the rule that is looked for is
    * that of the record as the verdict left it. */
  ghost predicate KeepsRule(st: State, ses: SessionInfo, s: DNSSession, faults: Faults) {
    || Verdict(ses, s) == Written(ses, s).reasonCode
    || KeepsMove(st, s, Written(ses, s), s.(reasonCode := Verdict(ses, s)), faults)
  }

  /** Storing the session once its rule has been moved. */
  lemma StoreMoved(st: State, s: DNSSession, v: nat, now: int, faults: Faults)
    requires Agrees(st, s.clientIP) && st.fw == Some(IpTables) && KeyOf(s) in st.sessions
    ensures
      var s' := s.(reasonCode := v);
      var stored := s'.(sessionExpiry := now + 330);
      var after := UpdateSession(if s.a.Some? then UpdateIPv4Step(st, s, v, faults).st else st, stored);
      && after.table + Lost(st, s, faults) == st.table + Gained(st, s, s', faults)
      && after.sessions == st.sessions[KeyOf(s) := stored] && after.fw == st.fw && after.reverse == st.reverse
  {
    if s.a.Some? {
      UpdateMoves(st, s, v, faults);
    }
  }

  /** Whether a session that is stored with a new reason has had its rule moved along. */
  lemma StoreMovedExactly(st: State, after: State, s: DNSSession, s1: DNSSession, s': DNSSession, stored: DNSSession,
                          faults: Faults)
    requires Agrees(st, s.clientIP) && KeyOf(s) in st.sessions && st.sessions[KeyOf(s)] == s
    requires s1 == s.(reasonCode := s1.reasonCode) && s' == s.(reasonCode := s'.reasonCode)
    requires stored == s'.(sessionExpiry := stored.sessionExpiry)
    requires after.table + Lost(st, s1, faults) == st.table + Gained(st, s1, s', faults)
    requires after.sessions == st.sessions[KeyOf(s) := stored] && after.fw == st.fw && after.reverse == st.reverse
    ensures Agrees(after, s.clientIP) <==> KeepsMove(st, s, s1, s', faults)
    ensures AgreesForAll(st) ==> (AgreesForAll(after) <==> KeepsMove(st, s, s1, s', faults))
    ensures SameElsewhere(st, after, s.clientIP, KeepsMove(st, s, s1, s', faults))
  {
    var k, lost, gained := KeyOf(s), Lost(st, s1, faults), Gained(st, s1, s', faults);
    SameBeside(st.sessions, k, stored);
    assert RuleBag(stored) == RuleBag(s');
    MoveBalance(st, s, s1, s', faults);
    BalanceOf(st, after, k, lost, gained, s.clientIP);
    if AgreesForAll(st) {
      Balance(st, after, k, lost, gained);
    }
    if KeepsMove(st, s, s1, s', faults) {
      MoveSizes(st, after, s, s1, s', faults);
    }
  }

  /** Re-evaluating one session keeps agreement exactly when the session's rule follows the verdict;
    * the session gets its verdict either way. */
  lemma ReevaluateOneExactly(st: State, ses: SessionInfo, s: DNSSession, now: int, faults: Faults)
    requires Agrees(st, s.clientIP) && st.fw == Some(IpTables)
    requires KeyOf(s) in st.sessions && st.sessions[KeyOf(s)] == s
    ensures
      var after, keeps := ReevaluateOne(st, ses, s, now, faults), KeepsRule(st, ses, s, faults);
      && (Agrees(after, s.clientIP) <==> keeps) && (AgreesForAll(st) ==> (AgreesForAll(after) <==> keeps))
      && SameElsewhere(st, after, s.clientIP, keeps)
      && after.sessions == st.sessions[KeyOf(s) := Reevaluated(ses, s, now)]
  {
    if Verdict(ses, s) != Written(ses, s).reasonCode {
      StoreMoved(st, Written(ses, s), Verdict(ses, s), now, faults);
      StoreMovedExactly(st, ReevaluateOne(st, ses, s, now, faults), s, Written(ses, s),
                        s.(reasonCode := Verdict(ses, s)), Reevaluated(ses, s, now), faults);
    } else {
      assert st.sessions[KeyOf(s) := s] == st.sessions;
    }
  }

  /** With a profile, or for a rejected client, or a local name: the commands that may be refused. */
  predicate MoveAccepted(s: DNSSession, v: nat, faults: Faults) {
    var r, r' := RuleOf(s), RuleOf(s.(reasonCode := v));
    v == s.reasonCode || !HasRule(s) || (if r in faults.delete then r == r' else r' !in faults.append)
  }

  lemma RefusedExactly(st: State, ses: SessionInfo, s: DNSSession, now: int, faults: Faults)
    requires Agrees(st, s.clientIP) && st.fw == Some(IpTables) && Written(ses, s) == s
    requires KeyOf(s) in st.sessions && st.sessions[KeyOf(s)] == s
    ensures KeepsRule(st, ses, s, faults) <==> MoveAccepted(s, Verdict(ses, s), faults)
    ensures Agrees(ReevaluateOne(st, ses, s, now, faults), s.clientIP) <==> MoveAccepted(s, Verdict(ses, s), faults)
  {
    ReevaluateOneExactly(st, ses, s, now, faults);
    if HasRule(s) {
      StoredRuleInTable(st, KeyOf(s));
    }
  }

  /** Only whether the reason is above zero shows in the rule, and only if it redirects elsewhere. */
  lemma RuleByReason(s: DNSSession, v: nat)
    requires s.a.Some?
    ensures RuleOf(s.(reasonCode := v)) == RuleOf(s) <==>
            (v > 0 <==> s.reasonCode > 0) || s.interfaceIP == s.a.value.ip
  {
  }

  /** Without a profile, an admitted client's session keeps its rule as it is, or has the one that
    * the overwritten reason looks for. */
  lemma WithoutProfileExactly(st: State, ses: SessionInfo, s: DNSSession, now: int)
    requires Agrees(st, s.clientIP) && st.fw == Some(IpTables)
    requires KeyOf(s) in st.sessions && st.sessions[KeyOf(s)] == s
    requires ses.accessProfile.None? && ses.rejectReason == ACCESS_ALLOWED && !s.isLocal
    ensures Agrees(ReevaluateOne(st, ses, s, now, NONE), s.clientIP) <==>
            || !HasRule(s) || s.reasonCode > 0 || s.interfaceIP == s.a.value.ip
            || RuleOf(s.(reasonCode := ACCESS_BLOCKED_RULE)) !in st.table
  {
    ReevaluateOneExactly(st, ses, s, now, NONE);
    assert Verdict(ses, s) == ACCESS_ALLOWED && Written(ses, s) == s.(reasonCode := ACCESS_BLOCKED_RULE);
    if HasRule(s) {
      StoredRuleInTable(st, KeyOf(s));
      RuleByReason(s, ACCESS_ALLOWED);
      RuleByReason(s, ACCESS_BLOCKED_RULE);
    }
  }

  // ----- All sessions of a client re-evaluated

  lemma UpdateOther(st: State, s: DNSSession, v: nat, faults: Faults, k: string)
    requires st.fw.Some? && s.a.Some? && KeyOf(s) != k
    ensures
      var after := UpdateIPv4Step(st, s, v, faults).st;
      after.fw == st.fw && BesideSame(st.sessions, after.sessions, k)
  {
  }

  predicate BesideSame(sessions: map<string, DNSSession>, after: map<string, DNSSession>, k: string) {
    (k in after <==> k in sessions) && (k in sessions ==> after[k] == sessions[k])
  }

  lemma StoreOther(st: State, s: DNSSession, v: nat, now: int, faults: Faults, k: string)
    requires KeyOf(s) != k
    ensures
      var mid := if st.fw.Some? && s.a.Some? then UpdateIPv4Step(st, s, v, faults).st else st;
      var after := UpdateSession(mid, s.(reasonCode := v, sessionExpiry := now + 330));
      after.fw == st.fw && BesideSame(st.sessions, after.sessions, k)
  {
    if st.fw.Some? && s.a.Some? {
      UpdateOther(st, s, v, faults, k);
    }
  }

  /** The sessions of the list are as stored when their turn comes. */
  lemma {:induction false} ReevaluateOthers(st: State, ses: SessionInfo, rs: seq<DNSSession>, now: int, faults: Faults,
                                            k: string)
    requires forall r :: r in rs ==> KeyOf(r) != k
    ensures
      var after := ReevaluateAll(st, ses, rs, now, faults);
      after.fw == st.fw && BesideSame(st.sessions, after.sessions, k)
  {
    if rs == [] {
    } else {
      var last := rs[|rs| - 1];
      ReevaluateOthers(st, ses, rs[..|rs| - 1], now, faults, k);
      assert KeyOf(Written(ses, last)) == KeyOf(last);
      var before := ReevaluateAll(st, ses, rs[..|rs| - 1], now, faults);
      StoreOther(before, Written(ses, last), Verdict(ses, last), now, faults, k);
    }
  }

  /** The state the `i`-th session of the list finds. */
  ghost function AtTurn(st: State, ses: SessionInfo, rs: seq<DNSSession>, now: int, faults: Faults, i: nat): State
    requires i <= |rs|
  {
    ReevaluateAll(st, ses, rs[..i], now, faults)
  }

  lemma TurnExactly(st: State, ses: SessionInfo, rs: seq<DNSSession>, now: int, faults: Faults, c: string, i: nat)
    requires st.fw == Some(IpTables) && StoredOf(st.sessions, rs, c)
    requires i < |rs| && Agrees(AtTurn(st, ses, rs, now, faults, i), c)
    ensures
      var turn, next := AtTurn(st, ses, rs, now, faults, i), AtTurn(st, ses, rs, now, faults, i + 1);
      var keeps := KeepsRule(turn, ses, rs[i], faults);
      && (Agrees(next, c) <==> keeps) && SameElsewhere(turn, next, c, keeps)
      && next.sessions == turn.sessions[KeyOf(rs[i]) := Reevaluated(ses, rs[i], now)]
      && (Written(ses, rs[i]) == rs[i] ==> (keeps <==> MoveAccepted(rs[i], Verdict(ses, rs[i]), faults)))
  {
    var turn := AtTurn(st, ses, rs, now, faults, i);
    assert rs[..i + 1][..i] == rs[..i];
    ReevaluateOthers(st, ses, rs[..i], now, faults, KeyOf(rs[i]));
    ReevaluateOneExactly(turn, ses, rs[i], now, faults);
    if Written(ses, rs[i]) == rs[i] {
      RefusedExactly(turn, ses, rs[i], now, faults);
    }
  }

  /** What holds first, and holds next exactly when a step keeps it, holds throughout exactly when
    * every step keeps it. */
  lemma Throughout(holds: seq<bool>, keeps: seq<bool>)
    requires |holds| == |keeps| + 1 && holds[0]
    requires forall i :: 0 <= i < |keeps| && holds[i] ==> (holds[i + 1] <==> keeps[i])
    ensures (forall n :: 0 <= n < |holds| ==> holds[n]) <==> (forall i :: 0 <= i < |keeps| ==> keeps[i])
  {
    if forall i :: 0 <= i < |keeps| ==> keeps[i] {
      for n := 0 to |keeps|
        invariant forall m :: 0 <= m <= n ==> holds[m]
      {
        assert holds[n + 1] <==> keeps[n];
      }
    }
    if forall n :: 0 <= n < |holds| ==> holds[n] {
      forall i | 0 <= i < |keeps|
        ensures keeps[i]
      {
        assert holds[i + 1];
      }
    }
  }

  ghost predicate AgreesThroughout(st: State, ses: SessionInfo, rs: seq<DNSSession>, now: int, faults: Faults,
      c: string) {
    forall n: nat :: n <= |rs| ==> Agrees(AtTurn(st, ses, rs, now, faults, n), c)
  }

  ghost predicate FollowsAt(st: State, ses: SessionInfo, rs: seq<DNSSession>, now: int, faults: Faults, i: nat)
    requires i < |rs|
  {
    KeepsRule(AtTurn(st, ses, rs, now, faults, i), ses, rs[i], faults)
  }

  /** Rules and sessions of the client agree at every turn of a re-evaluation exactly when, at each
    * turn, the rule of the session follows its verdict. */
  lemma ThroughoutExactly(st: State, ses: SessionInfo, rs: seq<DNSSession>, now: int, faults: Faults, c: string)
    requires Agrees(st, c) && st.fw == Some(IpTables) && StoredOf(st.sessions, rs, c)
    ensures AgreesThroughout(st, ses, rs, now, faults, c) <==>
            forall i: nat :: i < |rs| ==> FollowsAt(st, ses, rs, now, faults, i)
  {
    var holds := seq(|rs| + 1, i requires 0 <= i <= |rs| => Agrees(AtTurn(st, ses, rs, now, faults, i), c));
    var keeps := seq(|rs|, i requires 0 <= i < |rs| => FollowsAt(st, ses, rs, now, faults, i));
    forall i | 0 <= i < |rs| && holds[i]
      ensures holds[i + 1] <==> keeps[i]
    {
      TurnExactly(st, ses, rs, now, faults, c, i);
    }
    Throughout(holds, keeps);
    assert forall n: nat :: n <= |rs| ==> holds[n] == Agrees(AtTurn(st, ses, rs, now, faults, n), c);
    assert forall i: nat :: i < |rs| ==> keeps[i] == FollowsAt(st, ses, rs, now, faults, i);
  }

  /** With a profile, or for a rejected client: exactly when no command that matters is refused. */
  lemma ThroughoutAccepted(st: State, ses: SessionInfo, rs: seq<DNSSession>, now: int, faults: Faults, c: string)
    requires Agrees(st, c) && st.fw == Some(IpTables) && StoredOf(st.sessions, rs, c)
    requires forall r :: r in rs ==> Written(ses, r) == r
    ensures AgreesThroughout(st, ses, rs, now, faults, c) <==>
            forall r :: r in rs ==> MoveAccepted(r, Verdict(ses, r), faults)
  {
    var holds := seq(|rs| + 1, i requires 0 <= i <= |rs| => Agrees(AtTurn(st, ses, rs, now, faults, i), c));
    var keeps := seq(|rs|, i requires 0 <= i < |rs| => MoveAccepted(rs[i], Verdict(ses, rs[i]), faults));
    forall i | 0 <= i < |rs| && holds[i]
      ensures holds[i + 1] <==> keeps[i]
    {
      TurnExactly(st, ses, rs, now, faults, c, i);
    }
    Throughout(holds, keeps);
    assert forall n: nat :: n <= |rs| ==> holds[n] == Agrees(AtTurn(st, ses, rs, now, faults, n), c);
    assert forall i: nat :: i < |rs| ==> keeps[i] == MoveAccepted(rs[i], Verdict(ses, rs[i]), faults);
  }

  /** If they do, no rule is won or lost, and nothing of other clients changes. */
  lemma {:induction false} ThroughoutConserves(st: State, ses: SessionInfo, rs: seq<DNSSession>, now: int,
                                               faults: Faults, c: string, n: nat)
    requires st.fw == Some(IpTables) && StoredOf(st.sessions, rs, c) && n <= |rs|
    requires AgreesThroughout(st, ses, rs, now, faults, c)
    ensures SameElsewhere(st, AtTurn(st, ses, rs, now, faults, n), c, true)
  {
    if n == 0 {
    } else {
      ThroughoutConserves(st, ses, rs, now, faults, c, n - 1);
      assert Agrees(AtTurn(st, ses, rs, now, faults, n - 1), c) && Agrees(AtTurn(st, ses, rs, now, faults, n), c);
      TurnExactly(st, ses, rs, now, faults, c, n - 1);
    }
  }

  lemma StoreVerdictOf(st: State, s: DNSSession, v: nat, now: int, faults: Faults)
    requires KeyOf(s) in st.sessions
    ensures
      var mid := if st.fw.Some? && s.a.Some? then UpdateIPv4Step(st, s, v, faults).st else st;
      var stored := s.(reasonCode := v, sessionExpiry := now + 330);
      UpdateSession(mid, stored).sessions == st.sessions[KeyOf(s) := stored]
  {
  }

  lemma ReevaluateOneStores(st: State, ses: SessionInfo, s: DNSSession, now: int, faults: Faults)
    requires KeyOf(s) in st.sessions && st.sessions[KeyOf(s)] == s
    ensures ReevaluateOne(st, ses, s, now, faults).sessions == st.sessions[KeyOf(s) := Reevaluated(ses, s, now)]
  {
    if Verdict(ses, s) != Written(ses, s).reasonCode {
      StoreVerdictOf(st, Written(ses, s), Verdict(ses, s), now, faults);
    } else {
      assert st.sessions[KeyOf(s) := s] == st.sessions;
    }
  }

  ghost function ReevaluatedAll(sessions: map<string, DNSSession>, ses: SessionInfo, rs: seq<DNSSession>,
      now: int): map<string, DNSSession> {
    map k | k in sessions :: if IsOf(rs, k) then Reevaluated(ses, sessions[k], now) else sessions[k]
  }

  lemma ReevaluatedNext(sessions: map<string, DNSSession>, ses: SessionInfo, rs: seq<DNSSession>, now: int, c: string)
    requires StoredOf(sessions, rs, c) && rs != []
    ensures
      var last := |rs| - 1;
      var before := ReevaluatedAll(sessions, ses, rs[..last], now);
      && KeyOf(rs[last]) in before && before[KeyOf(rs[last])] == rs[last]
      && ReevaluatedAll(sessions, ses, rs, now) == before[KeyOf(rs[last]) := Reevaluated(ses, rs[last], now)]
  {
    var last := |rs| - 1;
    assert !IsOf(rs[..last], KeyOf(rs[last]));
    assert rs == rs[..last] + [rs[last]];
    assert forall k :: IsOf(rs, k) <==> IsOf(rs[..last], k) || k == KeyOf(rs[last]);
  }

  /** Every session of the list gets its verdict, whatever the packet filter refuses. */
  lemma {:induction false} ReevaluateAllStores(st: State, ses: SessionInfo, rs: seq<DNSSession>, now: int,
                                               faults: Faults, c: string)
    requires StoredOf(st.sessions, rs, c)
    ensures ReevaluateAll(st, ses, rs, now, faults).sessions == ReevaluatedAll(st.sessions, ses, rs, now)
  {
    if rs == [] {
      assert ReevaluatedAll(st.sessions, ses, rs, now) == st.sessions;
    } else {
      var last := |rs| - 1;
      ReevaluateAllStores(st, ses, rs[..last], now, faults, c);
      ReevaluatedNext(st.sessions, ses, rs, now, c);
      ReevaluateOneStores(ReevaluateAll(st, ses, rs[..last], now, faults), ses, rs[last], now, faults);
    }
  }

  /** Re-evaluating a client gives each of its sessions the verdict, and no other session. */
  lemma ReevaluationStores(st: State, c: string, ses: SessionInfo, now: int, faults: Faults)
    requires Invariant(st, true) && IsClient(c)
    ensures ReevaluateStep(st, c, ses, now, faults).sessions == map k | k in st.sessions ::
              if st.sessions[k].clientIP == c then Reevaluated(ses, st.sessions[k], now) else st.sessions[k]
  {
    QueriedOfClient(st, c);
    ReevaluateAllStores(st, ses, GetAll(st.sessions, SessionPrefix(c)), now, faults, c);
  }

  /** The client's rules agree with its sessions at every turn of a re-evaluation exactly when each
    * turn lets the rule follow; with a profile or for a rejected client, exactly when no command that
    * matters is refused. Then no rule is won or lost, and nothing of other clients changes. */
  lemma ReevaluationExactly(st: State, c: string, ses: SessionInfo, now: int, faults: Faults)
    requires Invariant(st, true) && IsClient(c) && Agrees(st, c) && st.fw == Some(IpTables)
    ensures
      var rs := GetAll(st.sessions, SessionPrefix(c));
      var after, agrees := ReevaluateStep(st, c, ses, now, faults), AgreesThroughout(st, ses, rs, now, faults, c);
      && (agrees <==> forall i: nat :: i < |rs| ==> FollowsAt(st, ses, rs, now, faults, i))
      && (ses.accessProfile.Some? || IsRejected(ses.rejectReason) ==>
            (agrees <==> forall r :: r in rs ==> MoveAccepted(r, Verdict(ses, r), faults)))
      && (agrees ==> Agrees(after, c) && SameElsewhere(st, after, c, true))
  {
    var rs := GetAll(st.sessions, SessionPrefix(c));
    QueriedOfClient(st, c);
    ThroughoutExactly(st, ses, rs, now, faults, c);
    if ses.accessProfile.Some? || IsRejected(ses.rejectReason) {
      ThroughoutAccepted(st, ses, rs, now, faults, c);
    }
    assert rs[..|rs|] == rs;
    if AgreesThroughout(st, ses, rs, now, faults, c) {
      ThroughoutConserves(st, ses, rs, now, faults, c, |rs|);
      assert Agrees(AtTurn(st, ses, rs, now, faults, |rs|), c);
    }
  }

  /** So with nothing refused, a profile or a rejection is enough. */
  lemma ReevaluateKeepsAgreement(st: State, c: string, ses: SessionInfo, now: int)
    requires Invariant(st, true) && IsClient(c) && Agrees(st, c) && st.fw == Some(IpTables)
    requires ses.accessProfile.Some? || IsRejected(ses.rejectReason)
    ensures
      var after := ReevaluateStep(st, c, ses, now, NONE);
      Agrees(after, c) && SameElsewhere(st, after, c, true)
  {
    ReevaluationExactly(st, c, ses, now, NONE);
  }

  // ----- Answers

  /** An allocation that gets as far as filing an address, by the state it starts from. */
  ghost predicate Assigns(st: State, s: DNSSession) {
    s.a.Some? && !Holds(st, s) && LeastFree(UsedOffsets(Released(st, s).reverse, s.clientIP, s.qtype)).Some?
  }

  /** The session at its new address: the least free offset of its client and type. */
  ghost function Rehoused(st: State, s: DNSSession): DNSSession
    requires Assigns(st, s)
  {
    Standing(s, LeastFree(UsedOffsets(Released(st, s).reverse, s.clientIP, s.qtype)).value)
  }

  ghost function Housed(st: State, s: DNSSession): DNSSession {
    if Assigns(st, s) then Rehoused(st, s) else s
  }

  /** The rule that filing the address adds, for the interface the query came in on. */
  ghost function AddedRules(st: State, s: DNSSession, ifIP: string, faults: Faults): multiset<NatRule> {
    if Assigns(st, s) then Accept(Rehoused(st, s).(interfaceIP := ifIP), faults) else multiset{}
  }

  function Accept(s: DNSSession, faults: Faults): multiset<NatRule> {
    if HasRule(s) && RuleOf(s) !in faults.append then multiset{RuleOf(s)} else multiset{}
  }

  lemma AssignAdds(st: State, s: DNSSession, ifIP: string, o: Offset, faults: Faults)
    requires s.a.Some? && ReverseKey(s.clientIP, s.qtype, o) !in st.reverse && st.fw == Some(IpTables)
    ensures
      var al := Assign(st, s, ifIP, o, faults);
      && al.st.sessions == st.sessions && al.st.fw == st.fw && al.session == Standing(s, o)
      && al.st.table == st.table + Accept(Standing(s, o).(interfaceIP := ifIP), faults)
  {
    AddressNotEmpty(o);
  }

  lemma AllocationAdds(st: State, s: DNSSession, ifIP: string, faults: Faults)
    requires ReverseFiled(st.reverse) && st.fw == Some(IpTables)
    ensures
      var al := AllocateStep(st, s, ifIP, faults);
      && al.st.sessions == st.sessions && al.st.fw == st.fw && al.session == Housed(st, s)
      && al.st.table == st.table + AddedRules(st, s, ifIP, faults)
  {
    if s.a.Some? && !Holds(st, s) {
      var st' := Released(st, s);
      AllocateIsAssign(st, s, ifIP, faults);
      if Assigns(st, s) {
        AssignAdds(st', s, ifIP, LeastFree(UsedOffsets(st'.reverse, s.clientIP, s.qtype)).value, faults);
      }
    }
  }

  /** An answer with upstream records stores the session it comes to after allocating for it. */
  ghost function StoreAnswer(st: State, s: DNSSession, ifIP: string, faults: Faults): State {
    var al := AllocateStep(st, s, ifIP, faults);
    al.st.(sessions := al.st.sessions[KeyOf(al.session) := al.session])
  }

  lemma AnswerBalance(st: State, s: DNSSession, ifIP: string, faults: Faults)
    requires ReverseFiled(st.reverse) && AgreesForAll(st) && st.fw == Some(IpTables)
    ensures AgreesForAll(StoreAnswer(st, s, ifIP, faults)) <==>
            AddedRules(st, s, ifIP, faults) + BagAt(st.sessions, KeyOf(s)) == RuleBag(Housed(st, s))
  {
    AllocationAdds(st, s, ifIP, faults);
    assert KeyOf(Housed(st, s)) == KeyOf(s);
    SameBeside(st.sessions, KeyOf(s), Housed(st, s));
    Balance(st, StoreAnswer(st, s, ifIP, faults), KeyOf(s), multiset{}, AddedRules(st, s, ifIP, faults));
    assert multiset{} + RuleBag(Housed(st, s)) == RuleBag(Housed(st, s));
  }

  /** A first answer: exactly when no address is free, the one it gets is the client's own, or the rule
    * for it is accepted. */
  lemma FirstAnswerExactly(st: State, s: DNSSession, faults: Faults)
    requires ReverseFiled(st.reverse) && AgreesForAll(st) && st.fw == Some(IpTables)
    requires KeyOf(s) !in st.sessions && (s.a.Some? ==> s.a.value.allocatedIP == "")
    ensures AgreesForAll(StoreAnswer(st, s, s.interfaceIP, faults)) <==>
            Assigns(st, s) ==> HasRule(Rehoused(st, s)) ==> RuleOf(Rehoused(st, s)) !in faults.append
  {
    AnswerBalance(st, s, s.interfaceIP, faults);
    if Assigns(st, s) {
      assert Rehoused(st, s).(interfaceIP := s.interfaceIP) == Rehoused(st, s);
    }
  }

  /** `s` is what fresh upstream records make of the stored session `was`: its own A record, or one
    * without an address yet. */
  predicate Renews(was: DNSSession, s: DNSSession) {
    s.clientIP == was.clientIP && (s.a == was.a || (s.a.Some? && s.a.value.allocatedIP == ""))
  }

  /** By the state before a further answer. Nothing is allocated: there was no rule, or the record
    * stays and the rule still fits. An address is allocated: the old rule, which is never removed, is
    * that of the new session, whose own is refused; or there was none, and the new one fits. */
  ghost predicate RefreshFits(st: State, was: DNSSession, s: DNSSession, ifIP: string, faults: Faults) {
    if !Assigns(st, s) then
      !HasRule(was) || (s.a == was.a && RuleOf(s) == RuleOf(was))
    else
      var t := Rehoused(st, s);
      var added := RuleOf(t.(interfaceIP := ifIP));
      if HasRule(was) then HasRule(t) && added in faults.append && RuleOf(t) == RuleOf(was)
      else HasRule(t) ==> added !in faults.append && added == RuleOf(t)
  }

  lemma KeptBags(was: DNSSession, s: DNSSession)
    requires Renews(was, s)
    ensures RuleBag(was) == RuleBag(s) <==> !HasRule(was) || (s.a == was.a && RuleOf(s) == RuleOf(was))
  {
    Swapped(RuleOf(was), RuleOf(was), RuleOf(s));
    assert multiset{RuleOf(was)} != multiset{};
  }

  lemma RehousedBags(was: DNSSession, t: DNSSession, ifIP: string, faults: Faults)
    ensures
      var added := RuleOf(t.(interfaceIP := ifIP));
      Accept(t.(interfaceIP := ifIP), faults) + RuleBag(was) == RuleBag(t) <==>
      if HasRule(was) then HasRule(t) && added in faults.append && RuleOf(t) == RuleOf(was)
      else HasRule(t) ==> added !in faults.append && added == RuleOf(t)
  {
    var added := RuleOf(t.(interfaceIP := ifIP));
    Swapped(RuleOf(was), added, RuleOf(t));
    Swapped(added, RuleOf(was), RuleOf(t));
    assert multiset{} + RuleBag(was) == RuleBag(was);
    assert multiset{added} + multiset{} == multiset{added};
    assert |multiset{added} + multiset{RuleOf(was)}| == 2 && |RuleBag(t)| <= 1;
  }

  lemma RefreshExactly(st: State, was: DNSSession, s: DNSSession, ifIP: string, faults: Faults)
    requires ReverseFiled(st.reverse) && AgreesForAll(st) && st.fw == Some(IpTables)
    requires KeyOf(s) in st.sessions && st.sessions[KeyOf(s)] == was && Renews(was, s)
    ensures AgreesForAll(StoreAnswer(st, s, ifIP, faults)) <==> RefreshFits(st, was, s, ifIP, faults)
  {
    AnswerBalance(st, s, ifIP, faults);
    if Assigns(st, s) {
      RehousedBags(was, Rehoused(st, s), ifIP, faults);
    } else {
      KeptBags(was, s);
      assert multiset{} + RuleBag(was) == RuleBag(was);
    }
  }

  /** With nothing refused, a further answer to a name with a rule keeps agreement exactly when the
    * record stays, its address is held, and the verdict does not show in the rule: a replaced record,
    * an address that is allocated anew and a verdict that shows each leave the old rule behind. */
  lemma RefreshOfRuleExactly(st: State, was: DNSSession, s: DNSSession, ifIP: string)
    requires ReverseFiled(st.reverse) && AgreesForAll(st) && st.fw == Some(IpTables)
    requires KeyOf(s) in st.sessions && st.sessions[KeyOf(s)] == was && Renews(was, s) && HasRule(was)
    requires s.interfaceIP == was.interfaceIP
    ensures AgreesForAll(StoreAnswer(st, s, ifIP, NONE)) <==>
            && s.a == was.a && !Assigns(st, s)
            && ((was.reasonCode > 0 <==> s.reasonCode > 0) || was.interfaceIP == was.a.value.ip)
  {
    RefreshExactly(st, was, s, ifIP, NONE);
    if s.a == was.a {
      RuleByReason(was, s.reasonCode);
      assert RuleOf(was.(reasonCode := s.reasonCode)) == RuleOf(s);
    }
  }

  /** An answer from the store alone stores its verdict and moves no rule: agreement is kept exactly
    * when the verdict does not show in the rule. */
  lemma CachedAnswerExactly(st: State, ses: SessionInfo, s: DNSSession)
    requires AgreesForAll(st) && KeyOf(s) in st.sessions && st.sessions[KeyOf(s)] == s
    ensures AgreesForAll(StoreVerdict(st, ses, s)) <==> VerdictUnseen(ses, s)
  {
    var s' := s.(reasonCode := Verdict(ses, s));
    SameBeside(st.sessions, KeyOf(s), s');
    Balance(st, StoreVerdict(st, ses, s), KeyOf(s), multiset{}, multiset{});
    assert multiset{} + RuleBag(s) == RuleBag(s) && multiset{} + RuleBag(s') == RuleBag(s');
    Swapped(RuleOf(s), RuleOf(s), RuleOf(s'));
    if HasRule(s) {
      RuleByReason(s, Verdict(ses, s));
    }
  }

  ghost function StoreVerdict(st: State, ses: SessionInfo, s: DNSSession): State {
    UpdateSession(st, s.(reasonCode := Verdict(ses, s)))
  }

  ghost predicate VerdictUnseen(ses: SessionInfo, s: DNSSession) {
    !HasRule(s) || (s.reasonCode > 0 <==> Verdict(ses, s) > 0) || s.interfaceIP == s.a.value.ip
  }
}
