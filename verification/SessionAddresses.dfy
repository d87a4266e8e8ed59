/** Which fake addresses stored sessions stand at, over every run: when two sessions of a client and type
  * come to share one, and what has to happen before they can. */
module SessionAddresses {
  import opened Addresses
  import opened Records
  import opened OffsetScan
  import opened KeyStore
  import opened ForwardState
  import opened ForwardRuns
  import opened AllocationLaws
  import opened NatAgreement
  import opened NatExactness

  function Address(s: DNSSession): string {
    if s.a.Some? then s.a.value.allocatedIP else ""
  }

  predicate SameClientAndType(s: DNSSession, t: DNSSession) {
    s.clientIP == t.clientIP && s.qtype == t.qtype
  }

  predicate Clash(s: DNSSession, t: DNSSession) {
    SameClientAndType(s, t) && Address(s) != "" && Address(s) == Address(t)
  }

  /** No two sessions of a client and type stand at one address. */
  ghost predicate Unshared(sessions: map<string, DNSSession>) {
    forall k, l :: k in sessions && l in sessions && k != l ==> !Clash(sessions[k], sessions[l])
  }

  /** The session stands at the address of `o`, and the record there, of its client and type, is for its
    * host. */
  predicate RootedAt(reverse: map<string, ReverseDNS>, s: DNSSession, o: Offset) {
    var k := ReverseKey(s.clientIP, s.qtype, o);
    Address(s) == IP4FromOffset(o) && k in reverse && reverse[k].hostname == s.hostname
  }

  ghost predicate RootedSession(reverse: map<string, ReverseDNS>, s: DNSSession) {
    Address(s) != "" ==> exists o :: RootedAt(reverse, s, o)
  }

  ghost predicate Rooted(st: State) {
    forall k :: k in st.sessions ==> RootedSession(st.reverse, st.sessions[k])
  }

  lemma OneHost(reverse: map<string, ReverseDNS>, s: DNSSession, t: DNSSession)
    requires RootedSession(reverse, s) && RootedSession(reverse, t) && Clash(s, t)
    ensures KeyOf(s) == KeyOf(t)
  {
    var o :| RootedAt(reverse, s, o);
    var p :| RootedAt(reverse, t, p);
    AddressesDistinct(o, p);
  }

  /** Rooted sessions do not share: the record at their address is for one host only. */
  lemma RootedUnshared(st: State)
    requires Rooted(st) && WellKeyed(st.sessions)
    ensures Unshared(st.sessions)
  {
    forall k, l | k in st.sessions && l in st.sessions && k != l
      ensures !Clash(st.sessions[k], st.sessions[l])
    {
      if Clash(st.sessions[k], st.sessions[l]) {
        OneHost(st.reverse, st.sessions[k], st.sessions[l]);
      }
    }
  }

  lemma RootedIsAt(reverse: map<string, ReverseDNS>, s: DNSSession, o: Offset)
    requires Address(s) == IP4FromOffset(o)
    ensures RootedSession(reverse, s) <==> RootedAt(reverse, s, o)
  {
    AddressNotEmpty(o);
    if p :| RootedAt(reverse, s, p) {
      AddressesDistinct(o, p);
    }
  }

  // ----- What an answer does to sessions and records

  ghost function NewOffset(st: State, s: DNSSession): Offset
    requires Assigns(st, s)
  {
    LeastFree(UsedOffsets(Released(st, s).reverse, s.clientIP, s.qtype)).value
  }

  ghost function RecordsAfter(st: State, s: DNSSession): map<string, ReverseDNS> {
    if s.a.None? || Holds(st, s) then st.reverse
    else if !Assigns(st, s) then Released(st, s).reverse
    else Released(st, s).reverse[ReverseKey(s.clientIP, s.qtype, NewOffset(st, s)) := Filed(s, NewOffset(st, s))]
  }

  lemma AllocationFiles(st: State, s: DNSSession, ifIP: string, faults: Faults)
    requires ReverseFiled(st.reverse) && Assigns(st, s)
    ensures
      var al := AllocateStep(st, s, ifIP, faults);
      && al.session == Rehoused(st, s) && al.st.sessions == st.sessions && al.st.reverse == RecordsAfter(st, s)
      && ReverseKey(s.clientIP, s.qtype, NewOffset(st, s)) !in Released(st, s).reverse
  {
    AllocateIsAssign(st, s, ifIP, faults);
    AssignFiles(Released(st, s), s, ifIP, NewOffset(st, s), faults);
  }

  lemma AllocationLeaves(st: State, s: DNSSession, ifIP: string, faults: Faults)
    requires !Assigns(st, s)
    ensures
      var al := AllocateStep(st, s, ifIP, faults);
      al.session == s && al.st.sessions == st.sessions && al.st.reverse == RecordsAfter(st, s)
  {
  }

  lemma AnswerStores(st: State, s: DNSSession, ifIP: string, faults: Faults)
    requires ReverseFiled(st.reverse)
    ensures
      var after := StoreAnswer(st, s, ifIP, faults);
      after.sessions == st.sessions[KeyOf(s) := Housed(st, s)] && after.reverse == RecordsAfter(st, s)
  {
    if Assigns(st, s) {
      AllocationFiles(st, s, ifIP, faults);
    } else {
      AllocationLeaves(st, s, ifIP, faults);
    }
    assert KeyOf(Housed(st, s)) == KeyOf(s);
  }

  // ----- Sharing

  /** No other session of the client and type stands at the address that an answer is given. */
  ghost predicate GivenApart(st: State, s: DNSSession) {
    Assigns(st, s) ==>
      forall k :: k in st.sessions && k != KeyOf(s) ==> !Clash(st.sessions[k], Rehoused(st, s))
  }

  /** `s` has no address yet, or that of the stored session it renews. */
  ghost predicate Settles(st: State, s: DNSSession) {
    Address(s) == ""
    || (KeyOf(s) in st.sessions && SameClientAndType(st.sessions[KeyOf(s)], s)
        && Address(st.sessions[KeyOf(s)]) == Address(s))
  }

  lemma UnsharedWith(sessions: map<string, DNSSession>, k: string, t: DNSSession)
    requires Unshared(sessions)
    ensures Unshared(sessions[k := t]) <==> forall l :: l in sessions && l != k ==> !Clash(sessions[l], t)
  {
    var after := sessions[k := t];
    if Unshared(after) {
      forall l | l in sessions && l != k
        ensures !Clash(sessions[l], t)
      {
        assert after[l] == sessions[l] && after[k] == t;
      }
    }
  }

  lemma AnswerUnsharedExactly(st: State, s: DNSSession, ifIP: string, faults: Faults)
    requires ReverseFiled(st.reverse) && Unshared(st.sessions) && Settles(st, s)
    ensures Unshared(StoreAnswer(st, s, ifIP, faults).sessions) <==> GivenApart(st, s)
  {
    AnswerStores(st, s, ifIP, faults);
    UnsharedWith(st.sessions, KeyOf(s), Housed(st, s));
    if !Assigns(st, s) {
      forall l | l in st.sessions && l != KeyOf(s)
        ensures !Clash(st.sessions[l], s)
      {
      }
    }
  }

  // ----- Roots

  /** Giving up the address of `s` deletes the record that `t` stands at. */
  predicate Uproots(st: State, s: DNSSession, t: DNSSession) {
    && s.a.Some? && Address(s) != "" && !Holds(st, s) && OffsetFromIP4(Address(s)) < MAX_VALUE
    && t.clientIP == s.clientIP && t.qtype == TYPE_A && Address(t) == Address(s)
  }

  /** A rooted session gives up no address unless it is of another type than A, at an offset that reads
    * back. */
  lemma ReleasesAt(st: State, s: DNSSession, o: Offset)
    requires RootedAt(st.reverse, s, o) && s.a.Some? && !Holds(st, s)
    ensures Released(st, s).reverse
         == if Recognised(o) then WithoutKey(st.reverse, ReverseKey(s.clientIP, TYPE_A, o)) else st.reverse
    ensures Recognised(o) ==> s.qtype != TYPE_A
    ensures OffsetFromIP4(Address(s)) < MAX_VALUE <==> Recognised(o)
  {
    HoldsAt(st, s, o);
    OffsetRoundTrip(o);
  }

  lemma ReleasedRoots(st: State, s: DNSSession, o: Offset, t: DNSSession, p: Offset)
    requires RootedAt(st.reverse, s, o) && s.a.Some? && !Holds(st, s) && RootedAt(st.reverse, t, p)
    ensures RootedAt(Released(st, s).reverse, t, p) <==> !Uproots(st, s, t)
    ensures !RootedAt(Released(st, s).reverse, t, p) ==> t.qtype == TYPE_A && s.qtype != TYPE_A
  {
    ReleasesAt(st, s, o);
    AddressNotEmpty(o);
    if ReverseKey(t.clientIP, t.qtype, p) == ReverseKey(s.clientIP, TYPE_A, o) {
      ReverseKeyInjective(t.clientIP, t.qtype, p, s.clientIP, TYPE_A, o);
    }
    if Address(t) == Address(s) {
      AddressesDistinct(o, p);
    }
  }

  /** A record filed under a free key roots no other session, and uproots none. */
  lemma FiledRoots(reverse: map<string, ReverseDNS>, s: DNSSession, o: Offset, t: DNSSession, p: Offset)
    requires s.a.Some? && ReverseKey(s.clientIP, s.qtype, o) !in reverse && Address(t) == IP4FromOffset(p)
    requires RootedAt(reverse, t, p) || t.qtype != s.qtype
    ensures RootedAt(reverse[ReverseKey(s.clientIP, s.qtype, o) := Filed(s, o)], t, p) <==> RootedAt(reverse, t, p)
  {
    if ReverseKey(t.clientIP, t.qtype, p) == ReverseKey(s.clientIP, s.qtype, o) {
      ReverseKeyInjective(t.clientIP, t.qtype, p, s.clientIP, s.qtype, o);
    }
  }

  lemma GivenUpRoots(st: State, s: DNSSession, t: DNSSession, p: Offset)
    requires RootedSession(st.reverse, s) && RootedAt(st.reverse, t, p) && s.a.Some? && !Holds(st, s)
    ensures RootedAt(Released(st, s).reverse, t, p) <==> !Uproots(st, s, t)
    ensures RootedAt(Released(st, s).reverse, t, p) || t.qtype != s.qtype
  {
    if Address(s) == "" {
      assert Released(st, s) == st;
    } else {
      var o :| RootedAt(st.reverse, s, o);
      ReleasedRoots(st, s, o, t, p);
    }
  }

  /** Another rooted session stays so exactly when it is not uprooted. */
  lemma OtherRoots(st: State, s: DNSSession, t: DNSSession)
    requires ReverseFiled(st.reverse) && RootedSession(st.reverse, s) && RootedSession(st.reverse, t)
    requires Address(t) != ""
    ensures RootedSession(RecordsAfter(st, s), t) <==> !Uproots(st, s, t)
  {
    var p :| RootedAt(st.reverse, t, p);
    RootedIsAt(RecordsAfter(st, s), t, p);
    if s.a.Some? && !Holds(st, s) {
      GivenUpRoots(st, s, t, p);
      if Assigns(st, s) {
        AllocationFiles(st, s, "", NONE);
        FiledRoots(Released(st, s).reverse, s, NewOffset(st, s), t, p);
      }
    }
  }

  lemma FiledIsRooted(reverse: map<string, ReverseDNS>, s: DNSSession, o: Offset)
    requires s.a.Some?
    ensures RootedAt(reverse[ReverseKey(s.clientIP, s.qtype, o) := Filed(s, o)], Standing(s, o), o)
  {
  }

  lemma StaysRooted(st: State, s: DNSSession, o: Offset)
    requires RootedAt(st.reverse, s, o) && s.a.Some? && !Holds(st, s)
    ensures RootedAt(Released(st, s).reverse, s, o)
  {
    ReleasesAt(st, s, o);
    if ReverseKey(s.clientIP, s.qtype, o) == ReverseKey(s.clientIP, TYPE_A, o) {
      ReverseKeyInjective(s.clientIP, s.qtype, o, s.clientIP, TYPE_A, o);
    }
  }

  /** The session of the answer itself is rooted afterwards. */
  lemma OwnRoots(st: State, s: DNSSession)
    requires RootedSession(st.reverse, s)
    ensures RootedSession(RecordsAfter(st, s), Housed(st, s))
  {
    if Assigns(st, s) {
      FiledIsRooted(Released(st, s).reverse, s, NewOffset(st, s));
    } else if s.a.Some? && !Holds(st, s) && Address(s) != "" {
      var o :| RootedAt(st.reverse, s, o);
      StaysRooted(st, s, o);
    }
  }

  ghost predicate ReleaseSpares(st: State, s: DNSSession) {
    forall k :: k in st.sessions && k != KeyOf(s) ==> !Uproots(st, s, st.sessions[k])
  }

  lemma RootedWith(st: State, after: State, k: string, t: DNSSession)
    requires after.sessions == st.sessions[k := t] && RootedSession(after.reverse, t)
    ensures Rooted(after) <==> forall l :: l in st.sessions && l != k ==> RootedSession(after.reverse, st.sessions[l])
  {
    if Rooted(after) {
      forall l | l in st.sessions && l != k
        ensures RootedSession(after.reverse, st.sessions[l])
      {
        assert after.sessions[l] == st.sessions[l];
      }
    }
  }

  /** An answer leaves every session at a record of its own exactly when it deletes no other's. */
  lemma AnswerRootedExactly(st: State, s: DNSSession, ifIP: string, faults: Faults)
    requires ReverseFiled(st.reverse) && Rooted(st) && RootedSession(st.reverse, s)
    ensures Rooted(StoreAnswer(st, s, ifIP, faults)) <==> ReleaseSpares(st, s)
  {
    AnswerStores(st, s, ifIP, faults);
    OwnRoots(st, s);
    RootedWith(st, StoreAnswer(st, s, ifIP, faults), KeyOf(s), Housed(st, s));
    forall l | l in st.sessions && l != KeyOf(s)
      ensures RootedSession(RecordsAfter(st, s), st.sessions[l]) <==> !Uproots(st, s, st.sessions[l])
    {
      if Address(st.sessions[l]) != "" {
        OtherRoots(st, s, st.sessions[l]);
      }
    }
  }
}
