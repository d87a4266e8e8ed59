/** Reviews, flushes and switches of the backend: exactly when they keep the NAT table in agreement
  * with the sessions, whatever the packet filter refuses. */
module NatRemovals {
  import opened Wrappers
  import opened Records
  import opened KeyStore
  import opened ForwardState
  import opened ForwardRuns
  import opened ReviewLaws
  import opened NatAgreement

  // ----- ReviewFwdRules

  ghost predicate SameOwner(s: DNSSession, t: DNSSession) {
    s.a == t.a && SessionRule(s) == SessionRule(t)
  }

  /** In agreement, removal succeeds exactly for a session without an A record, or with a rule that
    * the packet filter lets go. */
  lemma RemovalWorks(st: State, s: DNSSession, faults: Faults)
    requires AgreesForAll(st) && st.fw == Some(IpTables)
    requires KeyOf(s) in st.sessions && SameOwner(s, st.sessions[KeyOf(s)])
    ensures RemovalOf(st, s, faults).ok <==> s.a.None? || (HasRule(s) && RuleOf(s) !in faults.delete)
    ensures RemovalOf(st, s, faults).table + (if RemovalOf(st, s, faults).ok then RuleBag(s) else multiset{})
         == st.table
  {
    if HasRule(s) {
      assert KeyOf(s) in Owners(st.sessions, RuleOf(s));
    } else if s.a.Some? && RuleOf(s) in st.table {
      TableRules(st, RuleOf(s));
    }
  }

  lemma ExpireOneKeepsAgreement(st: State, s: DNSSession, now: int, faults: Faults)
    requires AgreesForAll(st) && st.fw == Some(IpTables)
    requires KeyOf(s) in st.sessions && SameOwner(s, st.sessions[KeyOf(s)])
    ensures
      var after := ExpireOne(st, s, now, faults);
      && AgreesForAll(after) && after.fw == st.fw && Submap(after.sessions, st.sessions)
      && forall k :: k in st.sessions && k != KeyOf(s) ==> k in after.sessions
  {
    if now > s.sessionExpiry {
      var after, k := ExpireOne(st, s, now, faults), KeyOf(s);
      RemovalWorks(st, s, faults);
      if RemovalOf(st, s, faults).ok {
        SameBeside(st.sessions, k, s);
        Balance(st, after, k, RuleBag(s), multiset{});
      } else {
        assert after.table == st.table;
      }
    }
  }

  ghost predicate StoredOwners(sessions: map<string, DNSSession>, rs: seq<DNSSession>) {
    && (forall i :: 0 <= i < |rs| ==> KeyOf(rs[i]) in sessions && SameOwner(rs[i], sessions[KeyOf(rs[i])]))
    && (forall i, j :: 0 <= i < j < |rs| ==> KeyOf(rs[i]) != KeyOf(rs[j]))
  }

  lemma {:induction false} ExpireAllKeepsAgreement(st: State, rs: seq<DNSSession>, now: int, faults: Faults)
    requires AgreesForAll(st) && st.fw == Some(IpTables) && StoredOwners(st.sessions, rs)
    ensures
      var after := ExpireAll(st, rs, now, faults);
      && AgreesForAll(after) && after.fw == st.fw && Submap(after.sessions, st.sessions)
      && forall k :: k in st.sessions && !IsOf(rs, k) ==> k in after.sessions
  {
    if rs == [] {
    } else {
      var last := |rs| - 1;
      ExpireAllKeepsAgreement(st, rs[..last], now, faults);
      assert !IsOf(rs[..last], KeyOf(rs[last]));
      assert forall k :: IsOf(rs[..last], k) ==> IsOf(rs, k);
      assert IsOf(rs, KeyOf(rs[last]));
      ExpireOneKeepsAgreement(ExpireAll(st, rs[..last], now, faults), rs[last], now, faults);
    }
  }

  lemma ChargingKeepsOwners(st: State, after: State, rs: seq<DNSSession>, stats: seq<Stat>, now: int, r: NatRule)
    requires Snapshot(st.sessions, rs) && WellKeyed(st.sessions) && AllCharged(st, after, rs, stats, now)
    ensures Owners(after.sessions, r) == Owners(st.sessions, r)
  {
    forall k | k in st.sessions
      ensures Owns(after.sessions[k], r) == Owns(st.sessions[k], r)
    {
      var i :| 0 <= i < |rs| && rs[i] == st.sessions[k];
      assert KeyOf(rs[i]) == k;
    }
  }

  /** The state in which the counters have been charged, and no session judged by its expiry yet. */
  lemma ChargedAgrees(st: State, stats: seq<Stat>, now: int)
    requires WellKeyed(st.sessions) && AgreesForAll(st) && st.fw == Some(IpTables)
    ensures
      var rs := GetAll(st.sessions, SESSIONS);
      var charged := ChargeAll(st, rs, stats, now);
      AgreesForAll(charged) && charged.fw == st.fw && StoredOwners(charged.sessions, rs)
  {
    var rs := GetAll(st.sessions, SESSIONS);
    QueryIsSnapshot(st.sessions);
    ChargeAllExactly(st, rs, stats, now);
    var charged := ChargeAll(st, rs, stats, now);
    forall r: NatRule
      ensures Owners(charged.sessions, r) == Owners(st.sessions, r)
    {
      ChargingKeepsOwners(st, charged, rs, stats, now, r);
    }
    forall i | 0 <= i < |rs|
      ensures SameOwner(rs[i], charged.sessions[KeyOf(rs[i])])
    {
      assert charged.sessions[KeyOf(rs[i])] == Charged(rs[i], LastCharge(rs, stats, i), now);
    }
  }

  /** A review keeps agreement whatever the packet filter refuses: a session whose rule stays is kept. */
  lemma ReviewKeepsAgreement(st: State, stats: seq<Stat>, now: int, faults: Faults)
    requires WellKeyed(st.sessions) && AgreesForAll(st) && st.fw == Some(IpTables)
    ensures AgreesForAll(ReviewStep(st, stats, now, faults)) && ReviewStep(st, stats, now, faults).fw == st.fw
  {
    var rs := GetAll(st.sessions, SESSIONS);
    ChargedAgrees(st, stats, now);
    ExpireAllKeepsAgreement(ChargeAll(st, rs, stats, now), rs, now, faults);
  }

  /** Whether the rule of the `i`-th session can be removed when its turn comes. */
  lemma RemovalAtTurn(st: State, rs: seq<DNSSession>, now: int, faults: Faults, i: nat)
    requires AgreesForAll(st) && st.fw == Some(IpTables) && StoredOwners(st.sessions, rs) && i < |rs|
    ensures RemovalOf(ExpireAll(st, rs[..i], now, faults), rs[i], faults).ok <==>
            rs[i].a.None? || (HasRule(rs[i]) && RuleOf(rs[i]) !in faults.delete)
  {
    ExpireAllKeepsAgreement(st, rs[..i], now, faults);
    assert !IsOf(rs[..i], KeyOf(rs[i]));
    RemovalWorks(ExpireAll(st, rs[..i], now, faults), rs[i], faults);
  }

  /** From agreement, a review keeps exactly the sessions whose snapshot expiry had not passed and those
    * with an A record that have no rule, or one whose deletion is refused. */
  lemma SurvivesInAgreement(st: State, stats: seq<Stat>, now: int, faults: Faults, i: nat)
    requires WellKeyed(st.sessions) && AgreesForAll(st) && st.fw == Some(IpTables)
    requires i < |GetAll(st.sessions, SESSIONS)|
    ensures
      var s := GetAll(st.sessions, SESSIONS)[i];
      KeyOf(s) in ReviewStep(st, stats, now, faults).sessions <==>
      now <= s.sessionExpiry || (s.a.Some? && (!HasRule(s) || RuleOf(s) in faults.delete))
  {
    var rs := GetAll(st.sessions, SESSIONS);
    SurvivesExactly(st, stats, now, faults, i);
    ChargedAgrees(st, stats, now);
    RemovalAtTurn(ChargeAll(st, rs, stats, now), rs, now, faults, i);
  }

  // ----- FlushSource

  /** The rules of the sessions whose removal the packet filter refuses. */
  function Stuck(rs: seq<DNSSession>, faults: Faults): multiset<NatRule> {
    if rs == [] then multiset{}
    else
      var last := rs[|rs| - 1];
      Stuck(rs[..|rs| - 1], faults) + if RuleOf(last) in faults.delete then RuleBag(last) else multiset{}
  }

  ghost predicate IsRuleOf(rs: seq<DNSSession>, r: NatRule) {
    exists s :: s in rs && HasRule(s) && RuleOf(s) == r
  }

  lemma LastIsRuleOf(rs: seq<DNSSession>, r: NatRule)
    requires rs != []
    ensures
      var last := rs[|rs| - 1];
      IsRuleOf(rs, r) <==> IsRuleOf(rs[..|rs| - 1], r) || (HasRule(last) && RuleOf(last) == r)
  {
    assert rs == rs[..|rs| - 1] + [rs[|rs| - 1]];
  }

  lemma {:induction false} StuckRules(rs: seq<DNSSession>, faults: Faults, r: NatRule)
    ensures r in Stuck(rs, faults) <==> r in faults.delete && IsRuleOf(rs, r)
  {
    if rs == [] {
    } else {
      StuckRules(rs[..|rs| - 1], faults, r);
      LastIsRuleOf(rs, r);
    }
  }

  /** The table is that of the sessions, and what is stuck besides. */
  ghost predicate AgreesBut(st: State, stuck: multiset<NatRule>) {
    forall r: NatRule :: st.table[r] == |Owners(st.sessions, r)| + stuck[r]
  }

  lemma FlushOneSticks(st: State, s: DNSSession, stuck: multiset<NatRule>, faults: Faults)
    requires AgreesBut(st, stuck) && st.fw == Some(IpTables) && KeyOf(s) in st.sessions && st.sessions[KeyOf(s)] == s
    requires !HasRule(s) ==> RuleOf(s) !in stuck
    ensures AgreesBut(FlushOne(st, s, faults), stuck + if RuleOf(s) in faults.delete then RuleBag(s) else multiset{})
  {
    var after := FlushOne(st, s, faults);
    if HasRule(s) {
      assert KeyOf(s) in Owners(st.sessions, RuleOf(s));
    } else if s.a.Some? {
      assert Owners(st.sessions, RuleOf(s)) == {};
    }
    var more := if RuleOf(s) in faults.delete then RuleBag(s) else multiset{};
    forall r: NatRule
      ensures after.table[r] == |Owners(after.sessions, r)| + (stuck + more)[r]
    {
      OwnersWithout(st.sessions, KeyOf(s), r);
    }
  }

  lemma {:induction false} FlushAllSticks(st: State, rs: seq<DNSSession>, faults: Faults)
    requires AgreesForAll(st) && st.fw == Some(IpTables) && Stored(st.sessions, rs)
    ensures AgreesBut(FlushAll(st, rs, faults), Stuck(rs, faults))
  {
    if rs == [] {
    } else {
      var last := |rs| - 1;
      FlushAllSticks(st, rs[..last], faults);
      FlushAllRemoves(st, rs[..last], faults);
      var before := FlushAll(st, rs[..last], faults);
      assert KeyOf(rs[last]) in before.sessions;
      StuckRules(rs[..last], faults, RuleOf(rs[last]));
      FlushOneSticks(before, rs[last], Stuck(rs[..last], faults), faults);
    }
  }

  /** Whatever is asked for, a flush leaves the rules of the sessions it leaves, and besides exactly
    * those of the sessions it drops whose deletion was refused. */
  lemma FlushLeaves(st: State, c: string, faults: Faults)
    requires Invariant(st, true) && AgreesForAll(st) && st.fw == Some(IpTables)
    ensures
      var after := FlushStep(st, c, faults);
      after.fw == st.fw && AgreesBut(after, Stuck(GetAll(st.sessions, SessionPrefix(c)), faults))
  {
    var rs := GetAll(st.sessions, SessionPrefix(c));
    QueriedStored(st, SessionPrefix(c));
    FlushAllSticks(st, rs, faults);
    FlushAllRemoves(st, rs, faults);
  }

  lemma FlushedOwners(st: State, c: string, faults: Faults, r: NatRule)
    requires Invariant(st, true) && SelectsOwn(st.sessions, c)
    ensures
      var after := FlushStep(st, c, faults);
      Owners(after.sessions, r) == if r.source == c then {} else Owners(st.sessions, r)
  {
    FlushedSessions(st, c, faults);
  }

  lemma StuckOfClient(st: State, c: string, faults: Faults, r: NatRule)
    requires Invariant(st, true) && SelectsOwn(st.sessions, c) && r.source != c
    ensures r !in Stuck(GetAll(st.sessions, SessionPrefix(c)), faults)
  {
    var rs := GetAll(st.sessions, SessionPrefix(c));
    StuckRules(rs, faults, r);
    if s :| s in rs && HasRule(s) && RuleOf(s) == r {
      QueriedStored(st, SessionPrefix(c));
      assert IsOf(rs, KeyOf(s));
    }
  }

  /** Of a client's rules it leaves exactly those, and all rules of others. */
  lemma FlushLeavesOfClient(st: State, c: string, faults: Faults)
    requires Invariant(st, true) && SelectsOwn(st.sessions, c) && AgreesForAll(st) && st.fw == Some(IpTables)
    ensures
      var after, stuck := FlushStep(st, c, faults), Stuck(GetAll(st.sessions, SessionPrefix(c)), faults);
      forall r: NatRule :: after.table[r] == if r.source == c then stuck[r] else st.table[r]
  {
    var after := FlushStep(st, c, faults);
    FlushLeaves(st, c, faults);
    forall r: NatRule
      ensures Owners(after.sessions, r) == if r.source == c then {} else Owners(st.sessions, r)
      ensures r.source != c ==> r !in Stuck(GetAll(st.sessions, SessionPrefix(c)), faults)
    {
      FlushedOwners(st, c, faults, r);
      if r.source != c {
        StuckOfClient(st, c, faults, r);
      }
    }
  }

  /** So a flush keeps agreement exactly when no rule of a session that it drops is refused. */
  lemma FlushKeepsAgreement(st: State, c: string, faults: Faults)
    requires Invariant(st, true) && AgreesForAll(st) && st.fw == Some(IpTables)
    ensures AgreesForAll(FlushStep(st, c, faults)) <==> FlushAccepted(st, c, faults)
  {
    var after, stuck := FlushStep(st, c, faults), Stuck(GetAll(st.sessions, SessionPrefix(c)), faults);
    FlushLeaves(st, c, faults);
    FlushAcceptedIsNoneStuck(st, c, faults);
    NoneStuckAgrees(after, stuck);
  }

  lemma NoneStuckAgrees(st: State, stuck: multiset<NatRule>)
    requires AgreesBut(st, stuck)
    ensures AgreesForAll(st) <==> stuck == multiset{}
  {
    assert stuck == multiset{} <==> forall r: NatRule :: stuck[r] == 0 by {
      SameBags(stuck, multiset{});
    }
  }

  predicate FlushAccepted(st: State, c: string, faults: Faults) {
    forall k :: k in st.sessions && HasPrefix(k, SessionPrefix(c)) && HasRule(st.sessions[k]) ==>
      RuleOf(st.sessions[k]) !in faults.delete
  }

  lemma FlushAcceptedIsNoneStuck(st: State, c: string, faults: Faults)
    requires WellKeyed(st.sessions)
    ensures FlushAccepted(st, c, faults) <==> Stuck(GetAll(st.sessions, SessionPrefix(c)), faults) == multiset{}
  {
    var rs := GetAll(st.sessions, SessionPrefix(c));
    QueriedStored(st, SessionPrefix(c));
    forall r: NatRule | FlushAccepted(st, c, faults)
      ensures r !in Stuck(rs, faults)
    {
      StuckRules(rs, faults, r);
      if s :| s in rs && HasRule(s) && RuleOf(s) == r {
        assert IsOf(rs, KeyOf(s));
      }
    }
    forall k | k in st.sessions && HasPrefix(k, SessionPrefix(c)) && HasRule(st.sessions[k])
      ensures RuleOf(st.sessions[k]) in faults.delete ==> RuleOf(st.sessions[k]) in Stuck(rs, faults)
    {
      assert IsOf(rs, k);
      assert st.sessions[k] in rs;
      StuckRules(rs, faults, RuleOf(st.sessions[k]));
    }
  }

  // ----- SetActiveFirewall

  ghost function Live(rs: seq<DNSSession>, now: int): map<string, DNSSession> {
    if rs == [] then map[]
    else
      var last := rs[|rs| - 1];
      var before := Live(rs[..|rs| - 1], now);
      if now > last.sessionExpiry then before else before[KeyOf(last) := last]
  }

  lemma {:induction false} LiveHolds(rs: seq<DNSSession>, now: int)
    requires forall i, j :: 0 <= i < j < |rs| ==> KeyOf(rs[i]) != KeyOf(rs[j])
    ensures forall r :: r in rs && now <= r.sessionExpiry ==> KeyOf(r) in Live(rs, now) && Live(rs, now)[KeyOf(r)] == r
    ensures forall k :: k in Live(rs, now) ==>
              Live(rs, now)[k] in rs && KeyOf(Live(rs, now)[k]) == k && now <= Live(rs, now)[k].sessionExpiry
  {
    if rs == [] {
    } else {
      var last := |rs| - 1;
      LiveHolds(rs[..last], now);
      assert rs == rs[..last] + [rs[last]];
    }
  }

  /** A refused rule is not in the table, however many sessions have it. */
  function Accepted(r: NatRule, n: nat, faults: Faults): nat {
    if r in faults.append then 0 else n
  }

  lemma AddOneRule(rules: seq<FwdRule>, s: DNSSession, r: NatRule, faults: Faults)
    ensures AddAll(multiset{}, rules + [SessionRule(s)], faults)[r]
         == AddAll(multiset{}, rules, faults)[r] + Accepted(r, Indicator(s, r), faults)
  {
    assert (rules + [SessionRule(s)])[..|rules|] == rules;
  }

  /** One more live session adds its own rule to the table and itself to the owners. */
  lemma LiveRulesNext(rs: seq<DNSSession>, now: int, r: NatRule, faults: Faults)
    requires rs != [] && now <= rs[|rs| - 1].sessionExpiry
    requires forall i, j :: 0 <= i < j < |rs| ==> KeyOf(rs[i]) != KeyOf(rs[j])
    ensures
      var last := |rs| - 1;
      && AddAll(multiset{}, LiveRules(rs, now), faults)[r]
         == AddAll(multiset{}, LiveRules(rs[..last], now), faults)[r] + Accepted(r, Indicator(rs[last], r), faults)
      && |Owners(Live(rs, now), r)| == |Owners(Live(rs[..last], now), r)| + Indicator(rs[last], r)
  {
    var last := |rs| - 1;
    LiveHolds(rs[..last], now);
    AddOneRule(LiveRules(rs[..last], now), rs[last], r, faults);
    OwnersWith(Live(rs[..last], now), KeyOf(rs[last]), rs[last], r);
  }

  lemma ExpiredSkipped(rs: seq<DNSSession>, now: int)
    requires rs != [] && now > rs[|rs| - 1].sessionExpiry
    ensures LiveRules(rs, now) == LiveRules(rs[..|rs| - 1], now) && Live(rs, now) == Live(rs[..|rs| - 1], now)
  {
  }

  /** The table built from the live sessions' rules has each accepted rule once for every owner. */
  lemma {:induction false} LiveRulesAgree(rs: seq<DNSSession>, now: int, r: NatRule, faults: Faults)
    requires forall i, j :: 0 <= i < j < |rs| ==> KeyOf(rs[i]) != KeyOf(rs[j])
    ensures AddAll(multiset{}, LiveRules(rs, now), faults)[r] == Accepted(r, |Owners(Live(rs, now), r)|, faults)
  {
    if rs == [] {
      assert Owners(map[], r) == {};
    } else {
      var last := |rs| - 1;
      LiveRulesAgree(rs[..last], now, r, faults);
      if now <= rs[last].sessionExpiry {
        LiveRulesNext(rs, now, r, faults);
      } else {
        ExpiredSkipped(rs, now);
      }
    }
  }

  lemma LiveAreStored(st: State, rs: seq<DNSSession>, now: int)
    requires Snapshot(st.sessions, rs) && WellKeyed(st.sessions)
    ensures forall k :: k in Live(rs, now) <==> k in st.sessions && now <= st.sessions[k].sessionExpiry
    ensures forall k :: k in Live(rs, now) ==> Live(rs, now)[k] == st.sessions[k]
  {
    LiveHolds(rs, now);
    forall k | k in st.sessions
      ensures k in Live(rs, now) <==> now <= st.sessions[k].sessionExpiry
    {
      var i :| 0 <= i < |rs| && rs[i] == st.sessions[k];
      assert KeyOf(rs[i]) == k;
    }
  }

  lemma LiveIsKept(st: State, rs: seq<DNSSession>, now: int)
    requires Snapshot(st.sessions, rs) && WellKeyed(st.sessions)
    ensures DropExpired(st, rs, now).sessions == Live(rs, now)
    ensures forall k :: k in Live(rs, now) <==> k in st.sessions && now <= st.sessions[k].sessionExpiry
    ensures forall k :: k in Live(rs, now) ==> Live(rs, now)[k] == st.sessions[k]
  {
    DropExpiredRemoves(st, rs, now);
    LiveAreStored(st, rs, now);
    var kept := DropExpired(st, rs, now).sessions;
    forall k
      ensures k in kept <==> k in st.sessions && now <= st.sessions[k].sessionExpiry
    {
      if k in st.sessions {
        var i :| 0 <= i < |rs| && rs[i] == st.sessions[k];
        assert KeyOf(rs[i]) == k;
      }
    }
  }

  predicate SwitchAccepted(st: State, now: int, faults: Faults) {
    forall k :: k in st.sessions && now <= st.sessions[k].sessionExpiry && HasRule(st.sessions[k]) ==>
      RuleOf(st.sessions[k]) !in faults.append
  }

  /** Switching to iptables puts the table in agreement, whatever it held before, exactly when no rule
    * of a live session is refused; a refused one is missing for all its sessions. */
  lemma SwitchEstablishesAgreement(st: State, fws: seq<Backend>, name: string, now: int, faults: Faults)
    requires WellKeyed(st.sessions)
    requires !(st.fw.Some? && st.fw.value.Name() == name) && name != "none"
    requires ChosenBackend(fws, name, st.fw) == Some(IpTables)
    ensures
      var after := SetActiveStep(st, fws, name, now, faults);
      forall r: NatRule :: after.table[r] == Accepted(r, |Owners(after.sessions, r)|, faults)
    ensures AgreesForAll(SetActiveStep(st, fws, name, now, faults)) <==> SwitchAccepted(st, now, faults)
  {
    var rs := GetAll(st.sessions, SESSIONS);
    var after := SetActiveStep(st, fws, name, now, faults);
    QueryIsSnapshot(st.sessions);
    LiveIsKept(st, rs, now);
    forall r: NatRule
      ensures after.table[r] == Accepted(r, |Owners(after.sessions, r)|, faults)
    {
      assert forall i, j :: 0 <= i < j < |rs| ==> KeyOf(rs[i]) != KeyOf(rs[j]);
      LiveRulesAgree(rs, now, r, faults);
    }
    SwitchMisses(after, st, now, faults);
  }

  lemma SwitchMisses(after: State, st: State, now: int, faults: Faults)
    requires forall r: NatRule :: after.table[r] == Accepted(r, |Owners(after.sessions, r)|, faults)
    requires forall k :: k in after.sessions <==> k in st.sessions && now <= st.sessions[k].sessionExpiry
    requires forall k :: k in after.sessions ==> after.sessions[k] == st.sessions[k]
    ensures AgreesForAll(after) <==> SwitchAccepted(st, now, faults)
  {
    if AgreesForAll(after) {
      forall k | k in after.sessions && HasRule(after.sessions[k])
        ensures RuleOf(after.sessions[k]) !in faults.append
      {
        assert k in Owners(after.sessions, RuleOf(after.sessions[k]));
      }
    }
    if SwitchAccepted(st, now, faults) {
      forall r: NatRule | r in faults.append
        ensures Owners(after.sessions, r) == {}
      {
      }
    }
  }
}
