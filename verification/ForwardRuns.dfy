/** What every run of the forwarding state keeps: reverse records, keys, and who owns which. */
module ForwardRuns {
  import opened Wrappers
  import opened Addresses
  import opened Records
  import opened OffsetScan
  import opened KeyStore
  import opened DomainAccess
  import opened ForwardState

  // ----- Runs

  datatype Event =
    | AllocateEvent(session: DNSSession, ifIP: string, faults: Faults)
    | StoreEvent(session: DNSSession)
    | UpdateEvent(session: DNSSession, newReason: nat, faults: Faults)
    | ReevaluateEvent(clientIP: string, ses: SessionInfo, now: int, faults: Faults)
    | ReviewEvent(stats: seq<Stat>, now: int, faults: Faults)
    | FlushEvent(clientIP: string, faults: Faults)
    | SetActiveEvent(fws: seq<Backend>, name: string, now: int, faults: Faults)

  ghost function Next(st: State, ev: Event): State {
    match ev
    case AllocateEvent(s, ifIP, faults) => AllocateStep(st, s, ifIP, faults).st
    case StoreEvent(s) => st.(sessions := st.sessions[KeyOf(s) := s])
    case UpdateEvent(s, newReason, faults) =>
      if st.fw.Some? && s.a.Some? then UpdateIPv4Step(st, s, newReason, faults).st else st
    case ReevaluateEvent(clientIP, ses, now, faults) => ReevaluateStep(st, clientIP, ses, now, faults)
    case ReviewEvent(stats, now, faults) => ReviewStep(st, stats, now, faults)
    case FlushEvent(clientIP, faults) => FlushStep(st, clientIP, faults)
    case SetActiveEvent(fws, name, now, faults) => SetActiveStep(st, fws, name, now, faults)
  }

  const START: State := State(map[], map[], multiset{}, None)

  ghost function Run(events: seq<Event>): State {
    if events == [] then START else Next(Run(events[..|events| - 1]), events[|events| - 1])
  }

  // ----- The invariant

  /** A reverse record under the key of a client, a type and its own offset, with that offset's address. */
  ghost predicate FiledUnder(k: string, r: ReverseDNS) {
    r.destIP == IP4FromOffset(r.destIPOffset)
    && exists c, t :: k == ReverseKey(c, t, r.destIPOffset)
  }

  ghost predicate ReverseFiled(reverse: map<string, ReverseDNS>) {
    forall k :: k in reverse ==> FiledUnder(k, reverse[k])
  }

  /** With `clients`, every session belongs to an address as the server cuts it. */
  ghost predicate Invariant(st: State, clients: bool) {
    && ReverseFiled(st.reverse) && WellKeyed(st.sessions)
    && (clients ==> forall k :: k in st.sessions ==> IsClient(st.sessions[k].clientIP))
  }

  ghost predicate OfClients(rs: seq<DNSSession>) {
    forall r :: r in rs ==> IsClient(r.clientIP)
  }

  ghost predicate OfClient(ev: Event) {
    (ev.StoreEvent? || ev.UpdateEvent? ==> IsClient(ev.session.clientIP))
  }

  lemma QueriedOfClients(st: State, prefix: string)
    requires Invariant(st, true)
    ensures OfClients(GetAll(st.sessions, prefix))
  {
    forall r | r in GetAll(st.sessions, prefix)
      ensures IsClient(r.clientIP)
    {
      GetAllHolds(st.sessions, prefix, r);
    }
  }

  ghost predicate Submap<V>(a: map<string, V>, b: map<string, V>) {
    forall k :: k in a ==> k in b && a[k] == b[k]
  }

  lemma GetAllHolds<V>(m: map<string, V>, prefix: string, v: V)
    ensures v in GetAll(m, prefix) <==> exists k :: k in m && HasPrefix(k, prefix) && m[k] == v
  {
    var keys := InOrder(set k | k in m && HasPrefix(k, prefix));
    if v in GetAll(m, prefix) {
      var i :| 0 <= i < |keys| && GetAll(m, prefix)[i] == v;
      assert keys[i] in keys;
    }
    if exists k :: k in m && HasPrefix(k, prefix) && m[k] == v {
      var k :| k in m && HasPrefix(k, prefix) && m[k] == v;
      assert k in keys;
      var i :| 0 <= i < |keys| && keys[i] == k;
      assert GetAll(m, prefix)[i] == v;
    }
  }

  /** A record found under a key stores the offset of the key. */
  lemma FiledOffsetIs(reverse: map<string, ReverseDNS>, c: string, t: nat, o: Offset)
    requires ReverseFiled(reverse) && ReverseKey(c, t, o) in reverse
    ensures reverse[ReverseKey(c, t, o)].destIPOffset == o
    ensures reverse[ReverseKey(c, t, o)].destIP == IP4FromOffset(o)
  {
    var k := ReverseKey(c, t, o);
    assert FiledUnder(k, reverse[k]);
    var c', t' :| k == ReverseKey(c', t', reverse[k].destIPOffset);
    ReverseKeyInjective(c, t, o, c', t', reverse[k].destIPOffset);
  }

  lemma FiledOffsetIsUsed(reverse: map<string, ReverseDNS>, c: string, t: nat, o: Offset)
    requires ReverseFiled(reverse) && ReverseKey(c, t, o) in reverse
    ensures o in UsedOffsets(reverse, c, t)
  {
    var k := ReverseKey(c, t, o);
    FiledOffsetIs(reverse, c, t, o);
    GetAllHolds(reverse, ReversePrefix(c, t), reverse[k]);
  }

  /** The offset the scan picks is free in the store: creating its record meets no existing key,
    * although the prefix query also returns records of other types. */
  lemma CreateMeetsNoKey(reverse: map<string, ReverseDNS>, c: string, t: nat)
    requires ReverseFiled(reverse)
    ensures
      var free := LeastFree(UsedOffsets(reverse, c, t));
      free.Some? ==> ReverseKey(c, t, free.value) !in reverse
  {
    var free := LeastFree(UsedOffsets(reverse, c, t));
    if free.Some? && ReverseKey(c, t, free.value) in reverse {
      FiledOffsetIsUsed(reverse, c, t, free.value);
    }
  }

  // ----- Each step

  lemma AssignKeeps(st: State, s: DNSSession, ifIP: string, o: Offset, faults: Faults, clients: bool)
    requires Invariant(st, clients) && s.a.Some?
    ensures Invariant(Assign(st, s, ifIP, o, faults).st, clients)
  {
    var k, r := ReverseKey(s.clientIP, s.qtype, o), ReverseDNS(s.a.value.ip, IP4FromOffset(o), o, s.hostname);
    assert FiledUnder(k, r);
    assert ReverseFiled(st.reverse[k := r]);
  }

  lemma AllocateKeeps(st: State, s: DNSSession, ifIP: string, faults: Faults, clients: bool)
    requires Invariant(st, clients)
    ensures Invariant(AllocateStep(st, s, ifIP, faults).st, clients)
  {
    if s.a.Some? && !Holds(st, s) {
      var st' := Released(st, s);
      assert Invariant(st', clients);
      var free := LeastFree(UsedOffsets(st'.reverse, s.clientIP, s.qtype));
      if free.Some? {
        AssignKeeps(st', s, ifIP, free.value, faults, clients);
      }
    }
  }

  lemma UpdateKeeps(st: State, s: DNSSession, newReason: nat, faults: Faults, clients: bool)
    requires st.fw.Some? && s.a.Some?
    requires Invariant(st, clients) && (clients ==> IsClient(s.clientIP))
    ensures Invariant(UpdateIPv4Step(st, s, newReason, faults).st, clients)
  {
  }

  lemma {:induction false} ReevaluateKeeps(st: State, ses: SessionInfo, rs: seq<DNSSession>, now: int,
      faults: Faults, clients: bool)
    requires Invariant(st, clients) && (clients ==> OfClients(rs))
    ensures Invariant(ReevaluateAll(st, ses, rs, now, faults), clients)
  {
    if rs == [] {
    } else {
      ReevaluateKeeps(st, ses, rs[..|rs| - 1], now, faults, clients);
      var st', s := ReevaluateAll(st, ses, rs[..|rs| - 1], now, faults), Written(ses, rs[|rs| - 1]);
      if st'.fw.Some? && s.a.Some? {
        UpdateKeeps(st', s, Verdict(ses, rs[|rs| - 1]), faults, clients);
      }
    }
  }

  lemma {:induction false} ChargeOneKeeps(st: State, rs: seq<DNSSession>, stat: Stat, now: int, clients: bool)
    requires Invariant(st, clients) && (clients ==> OfClients(rs))
    ensures Invariant(ChargeOne(st, rs, stat, now), clients)
  {
    if rs != [] && !Charges(stat, rs[0]) {
      ChargeOneKeeps(st, rs[1..], stat, now, clients);
    }
  }

  lemma {:induction false} ChargeKeeps(st: State, rs: seq<DNSSession>, stats: seq<Stat>, now: int, clients: bool)
    requires Invariant(st, clients) && (clients ==> OfClients(rs))
    ensures Invariant(ChargeAll(st, rs, stats, now), clients)
  {
    if stats == [] {
    } else {
      ChargeKeeps(st, rs, stats[..|stats| - 1], now, clients);
      ChargeOneKeeps(ChargeAll(st, rs, stats[..|stats| - 1], now), rs, stats[|stats| - 1], now, clients);
    }
  }

  lemma {:induction false} ExpireKeeps(st: State, rs: seq<DNSSession>, now: int, faults: Faults, clients: bool)
    requires Invariant(st, clients)
    ensures Invariant(ExpireAll(st, rs, now, faults), clients)
  {
    if rs == [] {
    } else {
      ExpireKeeps(st, rs[..|rs| - 1], now, faults, clients);
    }
  }

  /** One of the sessions stands under `k`. */
  ghost predicate IsOf(rs: seq<DNSSession>, k: string) {
    exists r :: r in rs && KeyOf(r) == k
  }

  lemma LastIsOf(rs: seq<DNSSession>, k: string)
    requires rs != []
    ensures IsOf(rs, k) <==> IsOf(rs[..|rs| - 1], k) || KeyOf(rs[|rs| - 1]) == k
  {
    assert rs == rs[..|rs| - 1] + [rs[|rs| - 1]];
  }

  lemma {:induction false} FlushAllAt(st: State, rs: seq<DNSSession>, faults: Faults, k: string)
    ensures
      var st' := FlushAll(st, rs, faults);
      && st'.reverse == st.reverse && st'.fw == st.fw
      && (k in st'.sessions <==> k in st.sessions && !IsOf(rs, k))
      && (k in st'.sessions ==> st'.sessions[k] == st.sessions[k])
  {
    if rs == [] {
    } else {
      FlushAllAt(st, rs[..|rs| - 1], faults, k);
      LastIsOf(rs, k);
    }
  }

  /** Flushing sessions removes exactly their keys and no reverse record. */
  lemma FlushAllRemoves(st: State, rs: seq<DNSSession>, faults: Faults)
    ensures
      var st' := FlushAll(st, rs, faults);
      && st'.reverse == st.reverse && st'.fw == st.fw && Submap(st'.sessions, st.sessions)
      && forall k :: k in st'.sessions <==> k in st.sessions && !IsOf(rs, k)
  {
    var st' := FlushAll(st, rs, faults);
    FlushAllAt(st, rs, faults, "");
    forall k
      ensures k in st'.sessions <==> k in st.sessions && !IsOf(rs, k)
      ensures k in st'.sessions ==> st'.sessions[k] == st.sessions[k]
    {
      FlushAllAt(st, rs, faults, k);
    }
  }

  lemma {:induction false} DropAddressesRemoves(reverse: map<string, ReverseDNS>, c: string, rs: seq<ReverseDNS>)
    ensures
      var after := DropAddresses(reverse, c, rs);
      && Submap(after, reverse)
      && forall k :: k in after <==> k in reverse && forall r :: r in rs ==> ReverseKey(c, TYPE_A, r.destIPOffset) != k
  {
    if rs == [] {
    } else {
      var last := |rs| - 1;
      DropAddressesRemoves(reverse, c, rs[..last]);
      assert forall r :: r in rs <==> r in rs[..last] || r == rs[last] by {
        assert rs == rs[..last] + [rs[last]];
      }
    }
  }

  ghost predicate SessionDropped(rs: seq<DNSSession>, now: int, k: string) {
    exists r :: r in rs && now > r.sessionExpiry && KeyOf(r) == k
  }

  /** The record an expired session's address is taken to stand for. */
  ghost predicate RecordDropped(rs: seq<DNSSession>, now: int, k: string) {
    exists r :: r in rs && now > r.sessionExpiry && r.a.Some? && ReverseKey(r.clientIP, r.qtype, FiledOffset(r)) == k
  }

  lemma LastDropped(rs: seq<DNSSession>, now: int, k: string)
    requires rs != []
    ensures
      var init, last := rs[..|rs| - 1], rs[|rs| - 1];
      && (SessionDropped(rs, now, k) <==>
            SessionDropped(init, now, k) || (now > last.sessionExpiry && KeyOf(last) == k))
      && (RecordDropped(rs, now, k) <==>
            RecordDropped(init, now, k)
            || (now > last.sessionExpiry && last.a.Some?
                && ReverseKey(last.clientIP, last.qtype, FiledOffset(last)) == k))
  {
    var last := |rs| - 1;
    assert forall r :: r in rs <==> r in rs[..last] || r == rs[last] by {
      assert rs == rs[..last] + [rs[last]];
    }
  }

  lemma DropOneAt(st: State, s: DNSSession, k: string)
    ensures
      var st' := DropOne(st, s);
      && st'.table == st.table && st'.fw == st.fw
      && (k in st'.sessions <==> k in st.sessions && KeyOf(s) != k)
      && (k in st'.sessions ==> st'.sessions[k] == st.sessions[k])
      && (k in st'.reverse <==>
            k in st.reverse && !(s.a.Some? && ReverseKey(s.clientIP, s.qtype, FiledOffset(s)) == k))
      && (k in st'.reverse ==> st'.reverse[k] == st.reverse[k])
  {
  }

  lemma {:induction false} DropExpiredAt(st: State, rs: seq<DNSSession>, now: int, k: string)
    ensures
      var st' := DropExpired(st, rs, now);
      && st'.table == st.table && st'.fw == st.fw
      && (k in st'.sessions <==> k in st.sessions && !SessionDropped(rs, now, k))
      && (k in st'.sessions ==> st'.sessions[k] == st.sessions[k])
      && (k in st'.reverse <==> k in st.reverse && !RecordDropped(rs, now, k))
      && (k in st'.reverse ==> st'.reverse[k] == st.reverse[k])
  {
    if rs == [] {
    } else {
      var last := |rs| - 1;
      DropExpiredAt(st, rs[..last], now, k);
      LastDropped(rs, now, k);
      DropOneAt(DropExpired(st, rs[..last], now), rs[last], k);
    }
  }

  lemma DropExpiredRemoves(st: State, rs: seq<DNSSession>, now: int)
    ensures
      var st' := DropExpired(st, rs, now);
      && Submap(st'.reverse, st.reverse) && Submap(st'.sessions, st.sessions)
      && st'.table == st.table && st'.fw == st.fw
      && (forall k :: k in st'.sessions <==> k in st.sessions && !SessionDropped(rs, now, k))
      && (forall k :: k in st'.reverse <==> k in st.reverse && !RecordDropped(rs, now, k))
  {
    var st' := DropExpired(st, rs, now);
    DropExpiredAt(st, rs, now, "");
    forall k
      ensures k in st'.sessions <==> k in st.sessions && !SessionDropped(rs, now, k)
      ensures k in st'.sessions ==> st'.sessions[k] == st.sessions[k]
      ensures k in st'.reverse <==> k in st.reverse && !RecordDropped(rs, now, k)
      ensures k in st'.reverse ==> st'.reverse[k] == st.reverse[k]
    {
      DropExpiredAt(st, rs, now, k);
    }
  }

  lemma ReviewKeeps(st: State, stats: seq<Stat>, now: int, faults: Faults, clients: bool)
    requires Invariant(st, clients)
    ensures Invariant(ReviewStep(st, stats, now, faults), clients)
  {
    var rs := GetAll(st.sessions, SESSIONS);
    if clients {
      QueriedOfClients(st, SESSIONS);
    }
    ChargeKeeps(st, rs, stats, now, clients);
    ExpireKeeps(if st.fw.Some? then ChargeAll(st, rs, stats, now) else st, rs, now, faults, clients);
  }

  lemma FlushKeeps(st: State, clientIP: string, faults: Faults, clients: bool)
    requires Invariant(st, clients)
    ensures Invariant(FlushStep(st, clientIP, faults), clients)
  {
    FlushAllRemoves(st, GetAll(st.sessions, SessionPrefix(clientIP)), faults);
    DropAddressesRemoves(st.reverse, clientIP, GetAll(st.reverse, ReversePrefix(clientIP, TYPE_A)));
  }

  lemma SetActiveKeeps(st: State, fws: seq<Backend>, name: string, now: int, faults: Faults, clients: bool)
    requires Invariant(st, clients)
    ensures Invariant(SetActiveStep(st, fws, name, now, faults), clients)
  {
    DropExpiredRemoves(st, GetAll(st.sessions, SESSIONS), now);
  }

  lemma StepKeepsInvariant(st: State, ev: Event, clients: bool)
    requires Invariant(st, clients) && (clients ==> OfClient(ev))
    ensures Invariant(Next(st, ev), clients)
  {
    if clients && ev.ReevaluateEvent? {
      QueriedOfClients(st, SessionPrefix(ev.clientIP));
    }
    match ev
    case AllocateEvent(s, ifIP, faults) =>
      AllocateKeeps(st, s, ifIP, faults, clients);
    case StoreEvent(s) =>
    case UpdateEvent(s, newReason, faults) =>
      if st.fw.Some? && s.a.Some? {
        UpdateKeeps(st, s, newReason, faults, clients);
      }
    case ReevaluateEvent(clientIP, ses, now, faults) =>
      ReevaluateKeeps(st, ses, GetAll(st.sessions, SessionPrefix(clientIP)), now, faults, clients);
    case ReviewEvent(stats, now, faults) =>
      ReviewKeeps(st, stats, now, faults, clients);
    case FlushEvent(clientIP, faults) =>
      FlushKeeps(st, clientIP, faults, clients);
    case SetActiveEvent(fws, name, now, faults) =>
      SetActiveKeeps(st, fws, name, now, faults, clients);
  }

  lemma {:induction false} RunKeepsInvariant(events: seq<Event>, clients: bool)
    requires clients ==> forall ev :: ev in events ==> OfClient(ev)
    ensures Invariant(Run(events), clients)
  {
    if events == [] {
    } else {
      RunKeepsInvariant(events[..|events| - 1], clients);
      StepKeepsInvariant(Run(events[..|events| - 1]), events[|events| - 1], clients);
    }
  }

  // ----- Consequences for every reachable state

  /** Within a client and type, every record stands at its own address, and no two share one. */
  lemma AddressesApart(events: seq<Event>, c: string, t: nat, o: Offset, p: Offset)
    ensures
      var reverse := Run(events).reverse;
      && (ReverseKey(c, t, o) in reverse ==>
            reverse[ReverseKey(c, t, o)].destIPOffset == o && reverse[ReverseKey(c, t, o)].destIP == IP4FromOffset(o))
      && (ReverseKey(c, t, o) in reverse && ReverseKey(c, t, p) in reverse && o != p ==>
            reverse[ReverseKey(c, t, o)].destIP != reverse[ReverseKey(c, t, p)].destIP)
  {
    var reverse := Run(events).reverse;
    RunKeepsInvariant(events, false);
    if ReverseKey(c, t, o) in reverse {
      FiledOffsetIs(reverse, c, t, o);
      if ReverseKey(c, t, p) in reverse && o != p {
        FiledOffsetIs(reverse, c, t, p);
        if IP4FromOffset(o) == IP4FromOffset(p) {
          AddressesDistinct(o, p);
        }
      }
    }
  }

  /** In every reachable state an allocation that finds an offset creates its record. */
  lemma AllocationCreates(events: seq<Event>, s: DNSSession, ifIP: string, faults: Faults)
    requires s.a.Some? && !Holds(Run(events), s) && AllocateStep(Run(events), s, ifIP, faults).ok
    ensures
      var after := AllocateStep(Run(events), s, ifIP, faults);
      exists o: Offset ::
        var k := ReverseKey(s.clientIP, s.qtype, o);
        && k !in Released(Run(events), s).reverse
        && after.st.reverse
           == Released(Run(events), s).reverse[k := ReverseDNS(s.a.value.ip, IP4FromOffset(o), o, s.hostname)]
        && after.session == s.(a := Some(s.a.value.(allocatedIP := IP4FromOffset(o))))
  {
    RunKeepsInvariant(events, false);
    AllocateIsAssign(Run(events), s, ifIP, faults);
    var o := LeastFree(UsedOffsets(Released(Run(events), s).reverse, s.clientIP, s.qtype)).value;
    AssignFiles(Released(Run(events), s), s, ifIP, o, faults);
  }

  /** Past the check of a held address, an allocation files the least free offset. */
  lemma AllocateIsAssign(st: State, s: DNSSession, ifIP: string, faults: Faults)
    requires ReverseFiled(st.reverse) && s.a.Some? && !Holds(st, s)
    ensures
      var st' := Released(st, s);
      match LeastFree(UsedOffsets(st'.reverse, s.clientIP, s.qtype))
      case None => AllocateStep(st, s, ifIP, faults) == Allocated(st', s, false)
      case Some(o) =>
        ReverseKey(s.clientIP, s.qtype, o) !in st'.reverse
        && AllocateStep(st, s, ifIP, faults) == Assign(st', s, ifIP, o, faults)
  {
    CreateMeetsNoKey(Released(st, s).reverse, s.clientIP, s.qtype);
  }

  /** A free offset's record is stored under its key, and the session is given its address. */
  lemma AssignFiles(st: State, s: DNSSession, ifIP: string, o: Offset, faults: Faults)
    requires s.a.Some? && ReverseKey(s.clientIP, s.qtype, o) !in st.reverse
    ensures
      var next := Assign(st, s, ifIP, o, faults);
      && next.st.reverse
         == st.reverse[ReverseKey(s.clientIP, s.qtype, o) := ReverseDNS(s.a.value.ip, IP4FromOffset(o), o, s.hostname)]
      && next.session == s.(a := Some(s.a.value.(allocatedIP := IP4FromOffset(o))))
      && next.st.sessions == st.sessions && next.st.fw == st.fw
  {
  }

  /** The sessions and type-A records of `c` are gone, and nothing else is. */
  ghost predicate FlushedOf(st: State, after: State, c: string) {
    && after.sessions == (map k | k in st.sessions && st.sessions[k].clientIP != c :: st.sessions[k])
    && RecordsFlushedOf(st.reverse, after.reverse, c)
  }

  ghost predicate RecordsFlushedOf(reverse: map<string, ReverseDNS>, after: map<string, ReverseDNS>, c: string) {
    && Submap(after, reverse)
    && forall c', t, o: Offset ::
        ReverseKey(c', t, o) in after <==> ReverseKey(c', t, o) in reverse && !(c' == c && t == 1)
  }

  /** The query for `c` returns the sessions of `c` and no others. */
  ghost predicate SelectsOwn(sessions: map<string, DNSSession>, c: string) {
    forall k :: k in sessions ==> (HasPrefix(k, SessionPrefix(c)) <==> sessions[k].clientIP == c)
  }

  lemma FlushedSessions(st: State, c: string, faults: Faults)
    requires WellKeyed(st.sessions)
    ensures FlushStep(st, c, faults).sessions
         == map k | k in st.sessions && !HasPrefix(k, SessionPrefix(c)) :: st.sessions[k]
  {
    var rs := GetAll(st.sessions, SessionPrefix(c));
    FlushAllRemoves(st, rs, faults);
    forall k | k in st.sessions
      ensures HasPrefix(k, SessionPrefix(c)) <==> IsOf(rs, k)
    {
      if HasPrefix(k, SessionPrefix(c)) {
        GetAllHolds(st.sessions, SessionPrefix(c), st.sessions[k]);
        assert st.sessions[k] in rs;
      }
      if r :| r in rs && KeyOf(r) == k {
        GetAllHolds(st.sessions, SessionPrefix(c), r);
      }
    }
  }

  /** Flushing whatever is asked for empties that client's sessions and type-A records, and changes no
    * other client, exactly when the query for its sessions returns those and no others. */
  lemma FlushIsolatesExactly(st: State, c: string, faults: Faults)
    requires Invariant(st, false)
    ensures FlushedOf(st, FlushStep(st, c, faults), c) <==> SelectsOwn(st.sessions, c)
  {
    var after := FlushStep(st, c, faults).sessions;
    FlushedSessions(st, c, faults);
    FlushedRecords(st, c, faults);
    if FlushedOf(st, FlushStep(st, c, faults), c) {
      forall k | k in st.sessions
        ensures HasPrefix(k, SessionPrefix(c)) <==> st.sessions[k].clientIP == c
      {
        assert k in after <==> !HasPrefix(k, SessionPrefix(c));
      }
    }
  }

  lemma ClientsSelectOwn(sessions: map<string, DNSSession>, c: string)
    requires WellKeyed(sessions) && forall k :: k in sessions ==> IsClient(sessions[k].clientIP)
    requires IsClient(c)
    ensures SelectsOwn(sessions, c)
  {
    forall k | k in sessions
      ensures HasPrefix(k, SessionPrefix(c)) <==> sessions[k].clientIP == c
    {
      SessionPrefixClient(c, sessions[k]);
    }
  }

  /** A client and type with a colon between them drop that client's sessions of that type. */
  lemma FlushOfTypeDrops(st: State, k: string, faults: Faults)
    requires Invariant(st, true) && k in st.sessions
    ensures
      var s := st.sessions[k];
      var c := s.clientIP + ":" + Decimal(s.qtype);
      k !in FlushStep(st, c, faults).sessions && s.clientIP != c && !FlushedOf(st, FlushStep(st, c, faults), c)
  {
    var c := st.sessions[k].clientIP + ":" + Decimal(st.sessions[k].qtype);
    SessionPrefixType(st.sessions[k]);
    FlushedSessions(st, c, faults);
  }

  /** So it does for an address as the server cuts it. */
  lemma FlushIsolates(st: State, c: string, faults: Faults)
    requires Invariant(st, true) && IsClient(c)
    ensures FlushedOf(st, FlushStep(st, c, faults), c)
  {
    ClientsSelectOwn(st.sessions, c);
    FlushIsolatesExactly(st, c, faults);
  }

  lemma FlushAfterRun(events: seq<Event>, c: string, faults: Faults)
    requires forall ev :: ev in events ==> OfClient(ev)
    ensures FlushedOf(Run(events), FlushStep(Run(events), c, faults), c) <==> SelectsOwn(Run(events).sessions, c)
    ensures IsClient(c) ==> FlushedOf(Run(events), FlushStep(Run(events), c, faults), c)
  {
    RunKeepsInvariant(events, true);
    FlushIsolatesExactly(Run(events), c, faults);
    if IsClient(c) {
      FlushIsolates(Run(events), c, faults);
    }
  }

  /** The keys a flush deletes are those of the client's own type-A records. */
  lemma FlushedKey(reverse: map<string, ReverseDNS>, c: string, c': string, t: nat, o: Offset)
    requires ReverseFiled(reverse) && ReverseKey(c', t, o) in reverse
    ensures (c' == c && t == TYPE_A) <==>
            exists r :: r in GetAll(reverse, ReversePrefix(c, TYPE_A))
                     && ReverseKey(c, TYPE_A, r.destIPOffset) == ReverseKey(c', t, o)
  {
    var k, rs := ReverseKey(c', t, o), GetAll(reverse, ReversePrefix(c, TYPE_A));
    if c' == c && t == TYPE_A {
      FiledOffsetIs(reverse, c, t, o);
      GetAllHolds(reverse, ReversePrefix(c, TYPE_A), reverse[k]);
      assert reverse[k] in rs;
    }
    if exists r :: r in rs && ReverseKey(c, TYPE_A, r.destIPOffset) == k {
      var r :| r in rs && ReverseKey(c, TYPE_A, r.destIPOffset) == k;
      ReverseKeyInjective(c, TYPE_A, r.destIPOffset, c', t, o);
    }
  }

  lemma FlushedRecords(st: State, c: string, faults: Faults)
    requires ReverseFiled(st.reverse)
    ensures RecordsFlushedOf(st.reverse, FlushStep(st, c, faults).reverse, c)
  {
    FlushAllRemoves(st, GetAll(st.sessions, SessionPrefix(c)), faults);
    DropAddressesRemoves(st.reverse, c, GetAll(st.reverse, ReversePrefix(c, TYPE_A)));
    forall c', t, o: Offset | ReverseKey(c', t, o) in st.reverse
      ensures ReverseKey(c', t, o) in FlushStep(st, c, faults).reverse <==> !(c' == c && t == TYPE_A)
    {
      FlushedKey(st.reverse, c, c', t, o);
    }
  }

  /** A switch drops the record an expired session stands at, unless that is the first address. */
  lemma SwitchDropsOwnRecord(s: DNSSession, o: Offset)
    requires s.a.Some? && s.a.value.allocatedIP == IP4FromOffset(o)
    ensures FiledOffset(s) == o <==> o != 0
    ensures o == 0 ==> FiledOffset(s) as nat == MAX_VALUE
  {
    OffsetRoundTrip(o);
    CutIsSame(OffsetFromIP4(s.a.value.allocatedIP));
  }

  lemma CutIsSame(t: nat)
    requires t <= MAX_VALUE
    ensures t % (MAX_VALUE + 1) == t
  {
  }
}
