/** The firewall manager over its store and packet filter, each method proved to take its step. */
module ForwardManager {
  import opened Wrappers
  import opened Addresses
  import opened Records
  import opened OffsetScan
  import opened KeyStore
  import opened DomainAccess
  import opened ForwardState

  datatype AllocateError = NoAvailableOffset

  class FirewallManager {
    /** The backends that were found, the active one, the stored records and the kernel's NAT rules. */
    const fws: seq<Backend>
    var fw: Option<Backend>
    var sessions: map<string, DNSSession>
    var reverse: map<string, ReverseDNS>
    var table: multiset<NatRule>

    constructor (fws: seq<Backend>)
      ensures this.fws == fws && St() == State(map[], map[], multiset{}, None)
    {
      this.fws := fws;
      fw := None;
      sessions := map[];
      reverse := map[];
      table := multiset{};
    }

    ghost function St(): State
      reads this
    {
      State(sessions, reverse, table, fw)
    }

    // ----- Store and packet filter

    method UpdateDNSSession(s: DNSSession)
      modifies this`sessions
      ensures St() == UpdateSession(old(St()), s)
    {
      if KeyOf(s) in sessions {
        sessions := sessions[KeyOf(s) := s];
      }
    }

    method DeleteDNSSession(s: DNSSession)
      modifies this`sessions
      ensures sessions == WithoutKey(old(sessions), KeyOf(s))
    {
      sessions := WithoutKey(sessions, KeyOf(s));
    }

    method DeleteReverseDNS(clientIP: string, qtype: nat, offset: Offset)
      modifies this`reverse
      ensures reverse == WithoutKey(old(reverse), ReverseKey(clientIP, qtype, offset))
    {
      reverse := WithoutKey(reverse, ReverseKey(clientIP, qtype, offset));
    }

    method Append(r: FwdRule, faults: Faults) returns (ok: bool)
      requires fw.Some?
      modifies this`table
      ensures Filtered(table, ok) == AddForwardRule(fw.value, old(table), r, faults)
    {
      if fw.value.Stub? {
        return false;
      }
      if r.clientIP != r.allocatedIP {
        if NatRuleOf(r) in faults.append {
          return false;
        }
        table := table + multiset{NatRuleOf(r)};
      }
      return true;
    }

    method Remove(r: FwdRule, faults: Faults) returns (ok: bool)
      requires fw.Some?
      modifies this`table
      ensures Filtered(table, ok) == RemoveForwardRule(fw.value, old(table), r, faults)
    {
      if fw.value.Stub? || NatRuleOf(r) in faults.delete || NatRuleOf(r) !in table {
        return false;
      }
      table := table - multiset{NatRuleOf(r)};
      return true;
    }

    // ----- Allocate

    /** Whether the session's address still stands for it; if it stands for another host, it is given up. */
    method HoldsAddress(s: DNSSession) returns (held: bool)
      requires s.a.Some?
      modifies this`reverse
      ensures held == Holds(old(St()), s)
      ensures St() == if held then old(St()) else Released(old(St()), s)
    {
      if s.a.value.allocatedIP != "" {
        var t := OffsetFromIP4(s.a.value.allocatedIP);
        if t < MAX_VALUE {
          var k := ReverseKey(s.clientIP, TYPE_A, t as Offset);
          if k in reverse {
            if reverse[k].hostname == s.hostname {
              return true;
            }
            DeleteReverseDNS(s.clientIP, TYPE_A, t as Offset);
          } else {
            assert WithoutKey(reverse, k) == reverse;
          }
        }
      }
      return false;
    }

    method Allocate(session: DNSSession, ifIP: string, faults: Faults)
      returns (s: DNSSession, err: Option<AllocateError>)
      modifies this`reverse, this`table
      ensures Allocated(St(), s, err.None?) == AllocateStep(old(St()), session, ifIP, faults)
      ensures session.a.Some? && session.a.value.allocatedIP == "" ==>
                var free := LeastFree(old(UsedOffsets(reverse, session.clientIP, session.qtype)));
                if err.None? then free.Some? && s.a.value.allocatedIP == TenNet(free.value as nat + 1)
                else free.None? && s == session
    {
      s := session;
      if s.a.Some? {
        var held := HoldsAddress(s);
        if held {
          return s, None;
        }
        var rules := GetAll(reverse, ReversePrefix(s.clientIP, s.qtype));
        var found := FirstAvailable(rules);
        if found.None? {
          return s, Some(NoAvailableOffset);
        }
        s := File(s, ifIP, found.value, faults);
        AddressText(found.value);
      }
      return s, None;
    }

    method File(session: DNSSession, ifIP: string, offset: Offset, faults: Faults) returns (s: DNSSession)
      requires session.a.Some?
      modifies this`reverse, this`table
      ensures Allocated(St(), s, true) == Assign(old(St()), session, ifIP, offset, faults)
    {
      var destIP := IP4FromOffset(offset);
      var key := ReverseKey(session.clientIP, session.qtype, offset);
      if key !in reverse {
        reverse := reverse[key := ReverseDNS(session.a.value.ip, destIP, offset, session.hostname)];
        if fw.Some? {
          var _ := Append(FwdRule(session.clientIP, ifIP, session.reasonCode, session.a.value.ip, destIP), faults);
        }
      }
      s := session.(a := Some(session.a.value.(allocatedIP := destIP)));
    }

    // ----- UpdateIPv4 and ReevaluateAccess

    method UpdateIPv4(session: DNSSession, newReason: nat, faults: Faults) returns (s: DNSSession, ok: bool)
      requires fw.Some? && session.a.Some?
      modifies this`sessions, this`table
      ensures Allocated(St(), s, ok) == UpdateIPv4Step(old(St()), session, newReason, faults)
    {
      s := session;
      var r := FwdRule(s.clientIP, s.interfaceIP, s.reasonCode, s.a.value.ip, s.a.value.allocatedIP);
      ok := Remove(r, faults);
      if !ok {
        return;
      }
      s := s.(reasonCode := newReason);
      UpdateDNSSession(s);
      r := r.(reasonCode := newReason);
      ok := Append(r, faults);
    }

    method ReevaluateAccess(clientIP: string, ses: SessionInfo, now: int, faults: Faults)
      modifies this`sessions, this`table
      ensures St() == ReevaluateStep(old(St()), clientIP, ses, now, faults)
    {
      var allrules := GetAll(sessions, SessionPrefix(clientIP));
      for i := 0 to |allrules|
        invariant St() == ReevaluateAll(old(St()), ses, allrules[..i], now, faults)
      {
        assert allrules[..i + 1][..i] == allrules[..i];
        var newReason, s := VerifyDomainAccess(ses, allrules[i]);
        if newReason != s.reasonCode {
          if fw.Some? && s.a.Some? {
            var updated, _ := UpdateIPv4(s, newReason, faults);
            s := updated;
          }
          s := s.(reasonCode := newReason, sessionExpiry := now + 330);
          UpdateDNSSession(s);
        }
      }
      assert allrules[..|allrules|] == allrules;
    }

    // ----- ReviewFwdRules

    method Charge(rs: seq<DNSSession>, stat: Stat, now: int)
      modifies this`sessions
      ensures St() == ChargeOne(old(St()), rs, stat, now)
    {
      if stat.bytes > 0 {
        for i := 0 to |rs|
          invariant St() == old(St()) && ChargeOne(St(), rs, stat, now) == ChargeOne(St(), rs[i..], stat, now)
        {
          assert rs[i..][1..] == rs[i + 1..];
          var rule := rs[i];
          if rule.a.Some? && stat.source == rule.clientIP && stat.destination == rule.a.value.allocatedIP {
            if stat.bytes > rule.bytesUsed {
              UpdateDNSSession(rule.(bytesUsed := stat.bytes, sessionExpiry := now + 630));
              return;
            }
          }
        }
      } else {
        NothingToCharge(St(), rs, stat, now);
      }
    }

    method ReviewFwdRules(stats: seq<Stat>, now: int, faults: Faults)
      modifies this`sessions, this`table
      ensures St() == ReviewStep(old(St()), stats, now, faults)
    {
      var rules := GetAll(sessions, SESSIONS);
      if fw.Some? {
        for i := 0 to |stats|
          invariant table == old(table) && St() == ChargeAll(old(St()), rules, stats[..i], now)
        {
          assert stats[..i + 1][..i] == stats[..i];
          Charge(rules, stats[i], now);
        }
        assert stats[..|stats|] == stats;
      }
      ghost var charged := St();
      for i := 0 to |rules|
        invariant St() == ExpireAll(charged, rules[..i], now, faults)
      {
        assert rules[..i + 1][..i] == rules[..i];
        var r := rules[i];
        if now > r.sessionExpiry {
          var ok := true;
          if fw.Some? && r.a.Some? {
            ok := Remove(SessionRule(r), faults);
          }
          if ok {
            DeleteDNSSession(r);
          }
        }
      }
      assert rules[..|rules|] == rules;
    }

    // ----- FlushSource

    method FlushSessions(rules: seq<DNSSession>, faults: Faults)
      modifies this`sessions, this`table
      ensures St() == FlushAll(old(St()), rules, faults)
    {
      for i := 0 to |rules|
        invariant St() == FlushAll(old(St()), rules[..i], faults)
      {
        assert rules[..i + 1][..i] == rules[..i];
        if fw.Some? && rules[i].a.Some? {
          var _ := Remove(SessionRule(rules[i]), faults);
        }
        DeleteDNSSession(rules[i]);
      }
      assert rules[..|rules|] == rules;
    }

    method DropReverse(clientIP: string, ips: seq<ReverseDNS>)
      modifies this`reverse
      ensures reverse == DropAddresses(old(reverse), clientIP, ips)
    {
      for i := 0 to |ips|
        invariant reverse == DropAddresses(old(reverse), clientIP, ips[..i])
      {
        assert ips[..i + 1][..i] == ips[..i];
        DeleteReverseDNS(clientIP, TYPE_A, ips[i].destIPOffset);
      }
      assert ips[..|ips|] == ips;
    }

    method FlushSource(clientIP: string, faults: Faults)
      modifies this`sessions, this`reverse, this`table
      ensures St() == FlushStep(old(St()), clientIP, faults)
    {
      FlushSessions(GetAll(sessions, SessionPrefix(clientIP)), faults);
      DropReverse(clientIP, GetAll(reverse, ReversePrefix(clientIP, TYPE_A)));
    }

    // ----- SetActiveFirewall

    method ChooseBackend(firewall: string)
      modifies this`fw
      ensures fw == ChosenBackend(fws, firewall, old(fw))
    {
      for i := 0 to |fws|
        invariant fw == old(fw) && NamedBackend(fws, firewall) == NamedBackend(fws[i..], firewall)
      {
        assert fws[i..][1..] == fws[i + 1..];
        if firewall == fws[i].Name() {
          fw := Some(fws[i]);
          return;
        }
      }
      if |fws| > 0 {
        fw := Some(fws[0]);
      }
    }

    /** Drops the expired sessions and collects the rules of the others. */
    method DropAndCollect(rs: seq<DNSSession>, now: int) returns (rules: seq<FwdRule>)
      modifies this`sessions, this`reverse
      ensures St() == DropExpired(old(St()), rs, now) && rules == LiveRules(rs, now)
    {
      rules := [];
      for k := 0 to |rs|
        invariant St() == DropExpired(old(St()), rs[..k], now)
        invariant rules == LiveRules(rs[..k], now)
      {
        assert rs[..k + 1][..k] == rs[..k];
        var s := rs[k];
        if now > s.sessionExpiry {
          if s.a.Some? {
            DeleteReverseDNS(s.clientIP, s.qtype, FiledOffset(s));
          }
          DeleteDNSSession(s);
        } else {
          rules := rules + [SessionRule(s)];
        }
      }
      assert rs[..|rs|] == rs;
    }

    method SetActiveFirewall(firewall: string, now: int, faults: Faults)
      modifies this`fw, this`sessions, this`reverse, this`table
      ensures St() == SetActiveStep(old(St()), fws, firewall, now, faults)
    {
      if fw.Some? && fw.value.Name() == firewall {
        return;
      }
      if firewall == "none" {
        fw := None;
        return;
      }
      var rs := GetAll(sessions, SESSIONS);
      ChooseBackend(firewall);
      if fw.Some? {
        DroppingIgnoresBackend(old(St()), rs, now, fw);
        var rules := DropAndCollect(rs, now);
        InitFilter(rules, faults);
      }
    }

    method InitFilter(rules: seq<FwdRule>, faults: Faults)
      requires fw.Some?
      modifies this`table
      ensures table == InitBackend(fw.value, old(table), rules, faults)
    {
      if fw.value.IpTables? {
        table := multiset{};
        for i := 0 to |rules|
          invariant table == AddAll(multiset{}, rules[..i], faults)
        {
          assert rules[..i + 1][..i] == rules[..i];
          if rules[i].allocatedIP != "" {
            var _ := Append(rules[i], faults);
          }
        }
        assert rules[..|rules|] == rules;
      }
    }
  }

  lemma {:induction false} NothingToCharge(st: State, rs: seq<DNSSession>, stat: Stat, now: int)
    requires stat.bytes == 0
    ensures ChargeOne(st, rs, stat, now) == st
  {
    if rs == [] {
    } else {
      NothingToCharge(st, rs[1..], stat, now);
    }
  }

  lemma {:induction false} DroppingIgnoresBackend(st: State, rs: seq<DNSSession>, now: int, fw: Option<Backend>)
    ensures DropExpired(st.(fw := fw), rs, now) == DropExpired(st, rs, now).(fw := fw)
  {
    if rs == [] {
    } else {
      DroppingIgnoresBackend(st, rs[..|rs| - 1], now, fw);
    }
  }
}
