/**
  * The forwarding state and its steps, as functions: DNS sessions and reverse records in the store,
  * and the NAT rules of the packet filter.
  */
module ForwardState {
  import opened Wrappers
  import opened Addresses
  import opened Records
  import opened OffsetScan
  import opened KeyStore
  import opened DomainAccess

  // ----- The packet filter

  datatype FwdRule =
    FwdRule(clientIP: string, interfaceIP: string, reasonCode: nat, targetIP: string, allocatedIP: string)

  datatype Chain = PREROUTING | OUTPUT

  /** `-t nat -A chain -s source -d destination -j DNAT --to-destination target` */
  datatype NatRule = NatRule(chain: Chain, source: string, destination: string, target: string)

  /** iptables keeps rules; the nftables and software backends answer every rule with an error. */
  datatype Backend = IpTables | Stub(stubName: string) {
    function Name(): string {
      if IpTables? then "iptables" else stubName
    }
  }

  /** The rules whose command the packet filter refuses during a step. */
  datatype Faults = Faults(append: set<NatRule>, delete: set<NatRule>)

  function NatRuleOf(r: FwdRule): NatRule {
    NatRule(if r.interfaceIP == r.clientIP then OUTPUT else PREROUTING,
            r.clientIP, r.allocatedIP,
            if r.reasonCode > 0 then r.interfaceIP else r.targetIP)
  }

  datatype Filtered = Filtered(table: multiset<NatRule>, ok: bool)

  function AddForwardRule(fw: Backend, table: multiset<NatRule>, r: FwdRule, faults: Faults): Filtered {
    if fw.Stub? then Filtered(table, false)
    else if r.clientIP == r.allocatedIP then Filtered(table, true)
    else if NatRuleOf(r) in faults.append then Filtered(table, false)
    else Filtered(table + multiset{NatRuleOf(r)}, true)
  }

  function RemoveForwardRule(fw: Backend, table: multiset<NatRule>, r: FwdRule, faults: Faults): Filtered {
    if fw.Stub? || NatRuleOf(r) in faults.delete || NatRuleOf(r) !in table then Filtered(table, false)
    else Filtered(table - multiset{NatRuleOf(r)}, true)
  }

  function AddAll(table: multiset<NatRule>, rules: seq<FwdRule>, faults: Faults): multiset<NatRule> {
    if rules == [] then table
    else
      var last := rules[|rules| - 1];
      var before := AddAll(table, rules[..|rules| - 1], faults);
      if last.allocatedIP != "" then AddForwardRule(IpTables, before, last, faults).table else before
  }

  /** iptables starts from flushed chains; the other backends do nothing. */
  function InitBackend(fw: Backend, table: multiset<NatRule>, rules: seq<FwdRule>, faults: Faults): multiset<NatRule> {
    if fw.Stub? then table else AddAll(multiset{}, rules, faults)
  }

  // ----- The state

  datatype State = State(
    sessions: map<string, DNSSession>, reverse: map<string, ReverseDNS>,
    table: multiset<NatRule>, fw: Option<Backend>)

  /** Every session is stored under its own key. */
  predicate WellKeyed(sessions: map<string, DNSSession>) {
    forall k :: k in sessions ==> KeyOf(sessions[k]) == k
  }

  function WithoutKey<V>(m: map<string, V>, k: string): map<string, V> {
    map x | x in m && x != k :: m[x]
  }

  function UpdateSession(st: State, s: DNSSession): State {
    if KeyOf(s) in st.sessions then st.(sessions := st.sessions[KeyOf(s) := s]) else st
  }

  /** The rule a session stands for; without an A record its addresses are empty. */
  function SessionRule(s: DNSSession): FwdRule {
    FwdRule(s.clientIP, s.interfaceIP, s.reasonCode,
            if s.a.Some? then s.a.value.ip else "", if s.a.Some? then s.a.value.allocatedIP else "")
  }

  // ----- Allocate

  ghost function UsedOffsets(reverse: map<string, ReverseDNS>, clientIP: string, qtype: nat): set<Offset> {
    Offsets(GetAll(reverse, ReversePrefix(clientIP, qtype)))
  }

  /** The address is allocated already, and stands for the same host. */
  predicate Holds(st: State, s: DNSSession)
    requires s.a.Some?
  {
    var t := OffsetFromIP4(s.a.value.allocatedIP);
    && s.a.value.allocatedIP != "" && t < MAX_VALUE
    && var k := ReverseKey(s.clientIP, TYPE_A, t as Offset);
       k in st.reverse && st.reverse[k].hostname == s.hostname
  }

  /** An allocated address that stands for another host is given up. */
  function Released(st: State, s: DNSSession): State
    requires s.a.Some?
  {
    var t := OffsetFromIP4(s.a.value.allocatedIP);
    if s.a.value.allocatedIP != "" && t < MAX_VALUE
    then st.(reverse := WithoutKey(st.reverse, ReverseKey(s.clientIP, TYPE_A, t as Offset)))
    else st
  }

  datatype Allocated = Allocated(st: State, session: DNSSession, ok: bool)

  /** Files the reverse record and the rule of a fresh address. */
  function Assign(st: State, s: DNSSession, ifIP: string, offset: Offset, faults: Faults): Allocated
    requires s.a.Some?
  {
    var destIP := IP4FromOffset(offset);
    var k := ReverseKey(s.clientIP, s.qtype, offset);
    var s' := s.(a := Some(s.a.value.(allocatedIP := destIP)));
    var st' :=
      if k in st.reverse then st
      else
        var filed := st.(reverse := st.reverse[k := ReverseDNS(s.a.value.ip, destIP, offset, s.hostname)]);
        if filed.fw.None? then filed
        else
          var added := AddForwardRule(filed.fw.value, filed.table, SessionRule(s'.(interfaceIP := ifIP)), faults);
          filed.(table := added.table);
    Allocated(st', s', true)
  }

  ghost function AllocateStep(st: State, s: DNSSession, ifIP: string, faults: Faults): Allocated {
    if s.a.None? || Holds(st, s) then Allocated(st, s, true)
    else
      var st' := Released(st, s);
      match LeastFree(UsedOffsets(st'.reverse, s.clientIP, s.qtype))
      case None => Allocated(st', s, false)
      case Some(offset) => Assign(st', s, ifIP, offset, faults)
  }

  // ----- UpdateIPv4 and ReevaluateAccess

  /** Requires an active backend and an A record, as its callers check. */
  function UpdateIPv4Step(st: State, s: DNSSession, newReason: nat, faults: Faults): Allocated
    requires st.fw.Some? && s.a.Some?
  {
    var removed := RemoveForwardRule(st.fw.value, st.table, SessionRule(s), faults);
    if !removed.ok then Allocated(st, s, false)
    else
      var s' := s.(reasonCode := newReason);
      var st' := UpdateSession(st.(table := removed.table), s');
      var added := AddForwardRule(st.fw.value, st'.table, SessionRule(s'), faults);
      Allocated(st'.(table := added.table), s', added.ok)
  }

  ghost function ReevaluateOne(st: State, ses: SessionInfo, s: DNSSession, now: int, faults: Faults): State {
    var newReason, s1 := Verdict(ses, s), Written(ses, s);
    if newReason == s1.reasonCode then st
    else
      var st1 := if st.fw.Some? && s1.a.Some? then UpdateIPv4Step(st, s1, newReason, faults).st else st;
      UpdateSession(st1, s1.(reasonCode := newReason, sessionExpiry := now + 330))
  }

  ghost function ReevaluateAll(st: State, ses: SessionInfo, rs: seq<DNSSession>, now: int, faults: Faults): State {
    if rs == [] then st
    else ReevaluateOne(ReevaluateAll(st, ses, rs[..|rs| - 1], now, faults), ses, rs[|rs| - 1], now, faults)
  }

  ghost function ReevaluateStep(st: State, clientIP: string, ses: SessionInfo, now: int, faults: Faults): State {
    ReevaluateAll(st, ses, GetAll(st.sessions, SessionPrefix(clientIP)), now, faults)
  }

  // ----- ReviewFwdRules

  datatype Stat = Stat(source: string, destination: string, bytes: nat)

  predicate Charges(stat: Stat, s: DNSSession) {
    stat.bytes > 0 && s.a.Some? && stat.source == s.clientIP && stat.destination == s.a.value.allocatedIP
    && stat.bytes > s.bytesUsed
  }

  /** A counter is charged to the first session of the snapshot that it belongs to and exceeds. */
  function ChargeOne(st: State, rs: seq<DNSSession>, stat: Stat, now: int): State {
    if rs == [] then st
    else if Charges(stat, rs[0]) then UpdateSession(st, rs[0].(bytesUsed := stat.bytes, sessionExpiry := now + 630))
    else ChargeOne(st, rs[1..], stat, now)
  }

  function ChargeAll(st: State, rs: seq<DNSSession>, stats: seq<Stat>, now: int): State {
    if stats == [] then st
    else ChargeOne(ChargeAll(st, rs, stats[..|stats| - 1], now), rs, stats[|stats| - 1], now)
  }

  function RemovalOf(st: State, s: DNSSession, faults: Faults): Filtered {
    if st.fw.Some? && s.a.Some? then RemoveForwardRule(st.fw.value, st.table, SessionRule(s), faults)
    else Filtered(st.table, true)
  }

  function ExpireOne(st: State, s: DNSSession, now: int, faults: Faults): State {
    if now <= s.sessionExpiry then st
    else
      var removed := RemovalOf(st, s, faults);
      if !removed.ok then st.(table := removed.table)
      else st.(table := removed.table, sessions := WithoutKey(st.sessions, KeyOf(s)))
  }

  function ExpireAll(st: State, rs: seq<DNSSession>, now: int, faults: Faults): State {
    if rs == [] then st
    else ExpireOne(ExpireAll(st, rs[..|rs| - 1], now, faults), rs[|rs| - 1], now, faults)
  }

  /** `stats` is what the active backend reported; without one there are none. */
  function ReviewStep(st: State, stats: seq<Stat>, now: int, faults: Faults): State {
    var rs := GetAll(st.sessions, SESSIONS);
    ExpireAll(if st.fw.Some? then ChargeAll(st, rs, stats, now) else st, rs, now, faults)
  }

  // ----- FlushSource

  function FlushOne(st: State, s: DNSSession, faults: Faults): State {
    st.(table := RemovalOf(st, s, faults).table, sessions := WithoutKey(st.sessions, KeyOf(s)))
  }

  function FlushAll(st: State, rs: seq<DNSSession>, faults: Faults): State {
    if rs == [] then st else FlushOne(FlushAll(st, rs[..|rs| - 1], faults), rs[|rs| - 1], faults)
  }

  function DropAddresses(reverse: map<string, ReverseDNS>, clientIP: string, rs: seq<ReverseDNS>): map<string,
      ReverseDNS> {
    if rs == [] then reverse
    else
      var last := |rs| - 1;
      WithoutKey(DropAddresses(reverse, clientIP, rs[..last]), ReverseKey(clientIP, TYPE_A, rs[last].destIPOffset))
  }

  function FlushStep(st: State, clientIP: string, faults: Faults): State {
    var st' := FlushAll(st, GetAll(st.sessions, SessionPrefix(clientIP)), faults);
    st'.(reverse := DropAddresses(st'.reverse, clientIP, GetAll(st'.reverse, ReversePrefix(clientIP, TYPE_A))))
  }

  // ----- SetActiveFirewall

  function NamedBackend(fws: seq<Backend>, name: string): Option<Backend> {
    if fws == [] then None
    else if fws[0].Name() == name then Some(fws[0])
    else NamedBackend(fws[1..], name)
  }

  function ChosenBackend(fws: seq<Backend>, name: string, current: Option<Backend>): Option<Backend> {
    var named := NamedBackend(fws, name);
    if named.Some? then named else if fws != [] then Some(fws[0]) else current
  }

  /** The offset an expired session's address is filed under, cut to 16 bits. */
  function FiledOffset(s: DNSSession): Offset
    requires s.a.Some?
  {
    (OffsetFromIP4(s.a.value.allocatedIP) % (MAX_VALUE + 1)) as Offset
  }

  function DropOne(st: State, s: DNSSession): State {
    var st' :=
      if s.a.Some? then st.(reverse := WithoutKey(st.reverse, ReverseKey(s.clientIP, s.qtype, FiledOffset(s)))) else st;
    st'.(sessions := WithoutKey(st'.sessions, KeyOf(s)))
  }

  function DropExpired(st: State, rs: seq<DNSSession>, now: int): State {
    if rs == [] then st
    else
      var last := rs[|rs| - 1];
      var before := DropExpired(st, rs[..|rs| - 1], now);
      if now > last.sessionExpiry then DropOne(before, last) else before
  }

  function LiveRules(rs: seq<DNSSession>, now: int): seq<FwdRule> {
    if rs == [] then []
    else
      var last := rs[|rs| - 1];
      LiveRules(rs[..|rs| - 1], now) + if now > last.sessionExpiry then [] else [SessionRule(last)]
  }

  function SetActiveStep(st: State, fws: seq<Backend>, name: string, now: int, faults: Faults): State {
    if st.fw.Some? && st.fw.value.Name() == name then st
    else if name == "none" then st.(fw := None)
    else
      var fw := ChosenBackend(fws, name, st.fw);
      if fw.None? then st
      else
        var rs := GetAll(st.sessions, SESSIONS);
        var st' := DropExpired(st, rs, now);
        st'.(fw := fw, table := InitBackend(fw.value, st'.table, LiveRules(rs, now), faults))
  }
}
