/** Which packet filter becomes active on a switch, and what the others do with rules. */
module BackendLaws {
  import opened Wrappers
  import opened Records
  import opened KeyStore
  import opened DomainAccess
  import opened ForwardState
  import opened ForwardRuns
  import opened ReviewLaws

  // ----- Switches

  /** `fws[i]` is the first backend of that name. */
  predicate FirstNamed(fws: seq<Backend>, name: string, i: nat) {
    i < |fws| && fws[i].Name() == name && forall j :: 0 <= j < i ==> fws[j].Name() != name
  }

  lemma {:induction false} NamedIsFirst(fws: seq<Backend>, name: string)
    ensures forall i: nat :: FirstNamed(fws, name, i) ==> NamedBackend(fws, name) == Some(fws[i])
    ensures (forall i :: 0 <= i < |fws| ==> fws[i].Name() != name) ==> NamedBackend(fws, name) == None
  {
    if fws != [] {
      NamedIsFirst(fws[1..], name);
      forall i: nat | FirstNamed(fws, name, i)
        ensures NamedBackend(fws, name) == Some(fws[i])
      {
        if i > 0 {
          assert FirstNamed(fws[1..], name, i - 1);
        }
      }
      if forall i :: 0 <= i < |fws| ==> fws[i].Name() != name {
        assert forall i :: 0 <= i < |fws| - 1 ==> fws[1..][i] == fws[i + 1];
      }
    }
  }

  /** The active backend after a switch: still the one of the asked name if it was active; none for
    * "none"; else the first of that name, or if none has it the first of all, or with an empty list the
    * one before. */
  lemma SwitchChooses(st: State, fws: seq<Backend>, name: string, now: int, faults: Faults)
    ensures
      var after := SetActiveStep(st, fws, name, now, faults);
      if st.fw.Some? && st.fw.value.Name() == name then after == st
      else if name == "none" then after == st.(fw := None)
      else
        && (forall i: nat :: FirstNamed(fws, name, i) ==> after.fw == Some(fws[i]))
        && ((forall i :: 0 <= i < |fws| ==> fws[i].Name() != name) ==>
              after.fw == if fws == [] then st.fw else Some(fws[0]))
  {
    NamedIsFirst(fws, name);
  }

  lemma BackendNames(b: Backend)
    ensures b.IpTables? ==> b.Name() == "iptables"
    ensures b.Stub? ==> b.Name() == b.stubName
  {
  }

  // ----- Backends other than iptables

  /** Any other backend, or none, leaves the table alone. */
  predicate NoTable(st: State) {
    st.fw != Some(IpTables)
  }

  lemma {:induction false} ExpireAllWithout(st: State, rs: seq<DNSSession>, now: int, faults: Faults, k: string)
    requires NoTable(st)
    requires forall i, j :: 0 <= i < j < |rs| ==> KeyOf(rs[i]) != KeyOf(rs[j])
    ensures
      var after := ExpireAll(st, rs, now, faults);
      && after.table == st.table && after.fw == st.fw
      && (k in after.sessions <==>
            k in st.sessions && forall r :: r in rs && KeyOf(r) == k ==> SurvivesWithout(st, r, now))
  {
    if rs == [] {
    } else {
      var last := |rs| - 1;
      ExpireAllWithout(st, rs[..last], now, faults, k);
      assert forall r :: r in rs <==> r in rs[..last] || r == rs[last] by {
        assert rs == rs[..last] + [rs[last]];
      }
    }
  }

  /** With a backend that answers every rule with an error, an A record keeps a session from expiring. */
  predicate SurvivesWithout(st: State, s: DNSSession, now: int) {
    now <= s.sessionExpiry || (st.fw.Some? && s.a.Some?)
  }

  /** A review without iptables touches no rule. It drops the expired sessions, with another backend only
    * those without an A record. */
  lemma ReviewWithout(st: State, stats: seq<Stat>, now: int, faults: Faults, k: string)
    requires WellKeyed(st.sessions) && NoTable(st)
    ensures
      var after := ReviewStep(st, stats, now, faults);
      && after.table == st.table && after.fw == st.fw
      && (k in after.sessions <==> k in st.sessions && SurvivesWithout(st, st.sessions[k], now))
  {
    var rs := GetAll(st.sessions, SESSIONS);
    QueryIsSnapshot(st.sessions);
    ChargeAllExactly(st, rs, stats, now);
    var charged := if st.fw.Some? then ChargeAll(st, rs, stats, now) else st;
    ExpireAllWithout(charged, rs, now, faults, k);
    if k in st.sessions {
      assert st.sessions[k] in rs && KeyOf(st.sessions[k]) == k;
    }
  }

  /** An update through another backend fails and changes nothing. */
  lemma UpdateWithout(st: State, s: DNSSession, newReason: nat, faults: Faults)
    requires NoTable(st) && st.fw.Some? && s.a.Some?
    ensures UpdateIPv4Step(st, s, newReason, faults) == Allocated(st, s, false)
  {
  }

  lemma AllocateWithout(st: State, s: DNSSession, ifIP: string, faults: Faults)
    requires NoTable(st)
    ensures AllocateStep(st, s, ifIP, faults).st.table == st.table
  {
  }

  lemma {:induction false} FlushAllWithout(st: State, rs: seq<DNSSession>, faults: Faults)
    requires NoTable(st)
    ensures FlushAll(st, rs, faults).table == st.table && FlushAll(st, rs, faults).fw == st.fw
  {
    if rs == [] {
    } else {
      FlushAllWithout(st, rs[..|rs| - 1], faults);
    }
  }

  lemma {:induction false} ReevaluateAllWithout(st: State, ses: SessionInfo, rs: seq<DNSSession>, now: int,
                                                faults: Faults)
    requires NoTable(st)
    ensures
      var after := ReevaluateAll(st, ses, rs, now, faults);
      after.table == st.table && after.fw == st.fw
  {
    if rs == [] {
    } else {
      ReevaluateAllWithout(st, ses, rs[..|rs| - 1], now, faults);
    }
  }

  /** Without iptables, no event but a switch changes the rule table or the backend. */
  lemma NothingFiltered(st: State, ev: Event)
    requires NoTable(st) && WellKeyed(st.sessions) && !ev.SetActiveEvent?
    ensures Next(st, ev).table == st.table && Next(st, ev).fw == st.fw
  {
    match ev
    case AllocateEvent(s, ifIP, faults) => AllocateWithout(st, s, ifIP, faults);
    case StoreEvent(s) =>
    case UpdateEvent(s, newReason, faults) =>
      if st.fw.Some? && s.a.Some? {
        UpdateWithout(st, s, newReason, faults);
      }
    case ReevaluateEvent(c, ses, now, faults) =>
      ReevaluateAllWithout(st, ses, GetAll(st.sessions, SessionPrefix(c)), now, faults);
    case ReviewEvent(stats, now, faults) => ReviewWithout(st, stats, now, faults, "");
    case FlushEvent(c, faults) => FlushAllWithout(st, GetAll(st.sessions, SessionPrefix(c)), faults);
  }
}
