/** How repeated allocation for one session settles, and exactly when. */
module AllocationLaws {
  import opened Wrappers
  import opened Addresses
  import opened Records
  import opened OffsetScan
  import opened KeyStore
  import opened ForwardState
  import opened ForwardRuns

  /** A type-A session that has an answer and no address yet. */
  predicate Fresh(s: DNSSession) {
    s.qtype == 1 && s.a.Some? && s.a.value.allocatedIP == ""
  }

  /** An offset that an allocated session is recognised by again: neither the first nor the last. */
  predicate Recognised(o: Offset) {
    0 < o as nat < 65535
  }

  ghost predicate SomeRecognisedFree(st: State, c: string) {
    exists o: Offset :: Recognised(o) && o !in UsedOffsets(st.reverse, c, TYPE_A)
  }

  /** `n` allocations in a row, each on the session the one before left. */
  ghost function AllocateTimes(st: State, s: DNSSession, ifIP: string, faults: Faults, n: nat): Allocated {
    if n == 0 then Allocated(st, s, true)
    else
      var before := AllocateTimes(st, s, ifIP, faults, n - 1);
      AllocateStep(before.st, before.session, ifIP, faults)
  }

  lemma UsedAfterCreate(reverse: map<string, ReverseDNS>, c: string, t: nat, o: Offset, r: ReverseDNS)
    requires r.destIPOffset == o && ReverseKey(c, t, o) !in reverse
    ensures UsedOffsets(reverse[ReverseKey(c, t, o) := r], c, t) == UsedOffsets(reverse, c, t) + {o}
  {
    var k, after := ReverseKey(c, t, o), reverse[ReverseKey(c, t, o) := r];
    var prefix := ReversePrefix(c, t);
    ReverseKeyHasPrefix(c, t, o);
    forall p: Offset
      ensures p in UsedOffsets(after, c, t) <==> p in UsedOffsets(reverse, c, t) || p == o
    {
      OffsetUsed(after, c, t, p);
      OffsetUsed(reverse, c, t, p);
      assert after[k].destIPOffset == o;
    }
  }

  lemma OffsetUsed(reverse: map<string, ReverseDNS>, c: string, t: nat, p: Offset)
    ensures p in UsedOffsets(reverse, c, t) <==>
            exists k :: k in reverse && HasPrefix(k, ReversePrefix(c, t)) && reverse[k].destIPOffset == p
  {
    var rs := GetAll(reverse, ReversePrefix(c, t));
    forall r
      ensures r in rs <==> exists k :: k in reverse && HasPrefix(k, ReversePrefix(c, t)) && reverse[k] == r
    {
      GetAllHolds(reverse, ReversePrefix(c, t), r);
    }
    if exists k :: k in reverse && HasPrefix(k, ReversePrefix(c, t)) && reverse[k].destIPOffset == p {
      var k :| k in reverse && HasPrefix(k, ReversePrefix(c, t)) && reverse[k].destIPOffset == p;
      assert reverse[k] in rs;
    }
  }

  /** The session stands at the address of `o`, under a record of its own. */
  ghost predicate StandsAt(reverse: map<string, ReverseDNS>, s: DNSSession, o: Offset) {
    var k := ReverseKey(s.clientIP, TYPE_A, o);
    s.a.Some? && s.a.value.allocatedIP == IP4FromOffset(o) && k in reverse && reverse[k].hostname == s.hostname
  }

  function Standing(s: DNSSession, o: Offset): DNSSession
    requires s.a.Some?
  {
    s.(a := Some(s.a.value.(allocatedIP := IP4FromOffset(o))))
  }

  /** The record an allocation files for `s` under `o`. */
  function Filed(s: DNSSession, o: Offset): ReverseDNS
    requires s.a.Some?
  {
    ReverseDNS(s.a.value.ip, IP4FromOffset(o), o, s.hostname)
  }

  lemma AssignCreates(st: State, s: DNSSession, ifIP: string, o: Offset, faults: Faults)
    requires ReverseFiled(st.reverse) && s.a.Some? && ReverseKey(s.clientIP, s.qtype, o) !in st.reverse
    ensures
      var next := Assign(st, s, ifIP, o, faults);
      && next.ok && next.session == Standing(s, o)
      && next.st.reverse == st.reverse[ReverseKey(s.clientIP, s.qtype, o) := Filed(s, o)]
      && ReverseFiled(next.st.reverse)
      && UsedOffsets(next.st.reverse, s.clientIP, s.qtype) == UsedOffsets(st.reverse, s.clientIP, s.qtype) + {o}
  {
    var k := ReverseKey(s.clientIP, s.qtype, o);
    AssignFiles(st, s, ifIP, o, faults);
    assert FiledUnder(k, Filed(s, o));
    UsedAfterCreate(st.reverse, s.clientIP, s.qtype, o, Filed(s, o));
  }

  /** No address, or one that does not read back as a recognised offset. */
  predicate Unplaced(s: DNSSession)
    requires s.a.Some?
  {
    s.a.value.allocatedIP == "" || OffsetFromIP4(s.a.value.allocatedIP) >= MAX_VALUE
  }

  /** An unplaced session is given the least free offset of its type, and a record of its own there. */
  lemma AllocatesLeast(st: State, s: DNSSession, ifIP: string, faults: Faults)
    requires ReverseFiled(st.reverse) && s.a.Some? && Unplaced(s)
    ensures
      var used := UsedOffsets(st.reverse, s.clientIP, s.qtype);
      var next := AllocateStep(st, s, ifIP, faults);
      match LeastFree(used)
      case None => next == Allocated(st, s, false)
      case Some(o) =>
        && next.ok && next.session == Standing(s, o)
        && next.session.a.value.allocatedIP == Filed(s, o).destIP == TenNet(o as nat + 1)
        && next.st.reverse == st.reverse[ReverseKey(s.clientIP, s.qtype, o) := Filed(s, o)]
        && ReverseKey(s.clientIP, s.qtype, o) !in st.reverse && ReverseFiled(next.st.reverse)
        && UsedOffsets(next.st.reverse, s.clientIP, s.qtype) == used + {o}
  {
    var free := LeastFree(UsedOffsets(st.reverse, s.clientIP, s.qtype));
    assert !Holds(st, s) && Released(st, s) == st;
    AllocateIsAssign(st, s, ifIP, faults);
    if free.Some? {
      AssignCreates(st, s, ifIP, free.value, faults);
      AddressText(free.value);
    }
  }

  lemma NothingUsed(reverse: map<string, ReverseDNS>, c: string, t: nat)
    requires forall k :: k in reverse ==> !HasPrefix(k, ReversePrefix(c, t))
    ensures LeastFree(UsedOffsets(reverse, c, t)) == Some(0)
  {
    forall o: Offset
      ensures o !in UsedOffsets(reverse, c, t)
    {
      OffsetUsed(reverse, c, t, o);
    }
  }

  /** The first address of a client and type whose query finds no record is 10.0.0.1. */
  lemma FirstAddress(st: State, s: DNSSession, ifIP: string, faults: Faults)
    requires ReverseFiled(st.reverse) && s.a.Some? && Unplaced(s)
    requires forall k :: k in st.reverse ==> !HasPrefix(k, ReversePrefix(s.clientIP, s.qtype))
    ensures
      var next := AllocateStep(st, s, ifIP, faults);
      next.ok && next.session == s.(a := Some(s.a.value.(allocatedIP := "10.0.0.1")))
  {
    NothingUsed(st.reverse, s.clientIP, s.qtype);
    AllocatesLeast(st, s, ifIP, faults);
    TenNetEnds();
  }

  /** A session that stands at a recognised offset is left alone from then on. */
  lemma RecognisedIsNoOp(st: State, s: DNSSession, o: Offset, ifIP: string, faults: Faults)
    requires StandsAt(st.reverse, s, o) && Recognised(o)
    ensures AllocateStep(st, s, ifIP, faults) == Allocated(st, s, true)
  {
    OffsetRoundTrip(o);
    AddressNotEmpty(o);
  }

  lemma UnrecognisedIsUnplaced(s: DNSSession, o: Offset)
    requires s.a.Some? && s.a.value.allocatedIP == IP4FromOffset(o) && !Recognised(o)
    ensures Unplaced(s)
  {
    OffsetRoundTrip(o);
  }

  /** The next allocation changes nothing and succeeds. */
  ghost predicate Settled(st: State, s: DNSSession, ifIP: string, faults: Faults) {
    AllocateStep(st, s, ifIP, faults) == Allocated(st, s, true)
  }

  /** The offset of `o` reads back, and its type-A record, whatever the type of `s`, is for its host. */
  predicate Recognises(reverse: map<string, ReverseDNS>, s: DNSSession, o: Offset) {
    var k := ReverseKey(s.clientIP, 1, o);
    Recognised(o) && k in reverse && reverse[k].hostname == s.hostname
  }

  lemma HoldsAt(st: State, s: DNSSession, o: Offset)
    requires s.a.Some? && s.a.value.allocatedIP == IP4FromOffset(o)
    ensures Holds(st, s) <==> Recognises(st.reverse, s, o)
    ensures Released(st, s).reverse
         == if Recognised(o) then WithoutKey(st.reverse, ReverseKey(s.clientIP, TYPE_A, o)) else st.reverse
  {
    OffsetRoundTrip(o);
    AddressNotEmpty(o);
  }

  /** A session that is not recognised at its own record is moved on, or told that nothing is free. */
  lemma UnrecognisedMoves(st: State, s: DNSSession, o: Offset, ifIP: string, faults: Faults)
    requires ReverseFiled(st.reverse) && s.a.Some? && s.a.value.allocatedIP == IP4FromOffset(o)
    requires ReverseKey(s.clientIP, s.qtype, o) in st.reverse && !Recognises(st.reverse, s, o)
    requires s.qtype == TYPE_A ==> st.reverse[ReverseKey(s.clientIP, TYPE_A, o)].hostname == s.hostname
    ensures !Settled(st, s, ifIP, faults)
    ensures !Recognised(o) ==> Submap(st.reverse, AllocateStep(st, s, ifIP, faults).st.reverse)
  {
    var released := Released(st, s);
    HoldsAt(st, s, o);
    AllocateIsAssign(st, s, ifIP, faults);
    if Recognised(o) && s.qtype != TYPE_A && ReverseKey(s.clientIP, s.qtype, o) == ReverseKey(s.clientIP, TYPE_A, o) {
      ReverseKeyInjective(s.clientIP, s.qtype, o, s.clientIP, TYPE_A, o);
    }
    FiledOffsetIsUsed(released.reverse, s.clientIP, s.qtype, o);
    var free := LeastFree(UsedOffsets(released.reverse, s.clientIP, s.qtype));
    if free.Some? {
      AssignFiles(released, s, ifIP, free.value, faults);
      if IP4FromOffset(free.value) == IP4FromOffset(o) {
        AddressesDistinct(free.value, o);
      }
    }
  }

  /** Filing a record of another type changes no type-A record. */
  lemma OtherTypeRecognises(st: State, s: DNSSession, o: Offset, p: Offset)
    requires s.a.Some? && s.qtype != TYPE_A
    ensures Recognises(st.reverse[ReverseKey(s.clientIP, s.qtype, p) := Filed(s, p)], s, o) <==>
            Recognises(st.reverse, s, o)
  {
    if ReverseKey(s.clientIP, s.qtype, p) == ReverseKey(s.clientIP, TYPE_A, o) {
      ReverseKeyInjective(s.clientIP, s.qtype, p, s.clientIP, TYPE_A, o);
    }
  }

  /** By the state before the first allocation, the next one changes nothing exactly when the first files
    * an offset in 1..65534 and the session is of type A, or the client has a type-A record for the host
    * under that offset. If the offset is 0 or 65535, the record filed there stays. */
  lemma SettlesExactly(st: State, s: DNSSession, ifIP: string, faults: Faults)
    requires ReverseFiled(st.reverse) && s.a.Some? && Unplaced(s)
    ensures
      var free := LeastFree(UsedOffsets(st.reverse, s.clientIP, s.qtype));
      var first := AllocateStep(st, s, ifIP, faults);
      var second := AllocateStep(first.st, first.session, ifIP, faults);
      && (Settled(first.st, first.session, ifIP, faults) <==>
            free.Some? && Recognised(free.value) && (s.qtype == TYPE_A || Recognises(st.reverse, s, free.value)))
      && (free.Some? && !Recognised(free.value) ==> Submap(first.st.reverse, second.st.reverse))
  {
    var free := LeastFree(UsedOffsets(st.reverse, s.clientIP, s.qtype));
    var first := AllocateStep(st, s, ifIP, faults);
    AllocatesLeast(st, s, ifIP, faults);
    if free.Some? {
      if s.qtype != TYPE_A {
        OtherTypeRecognises(st, s, free.value, free.value);
      }
      HoldsAt(first.st, first.session, free.value);
      if !Recognises(first.st.reverse, s, free.value) {
        UnrecognisedMoves(first.st, first.session, free.value, ifIP, faults);
      }
    }
  }

  /** A session of another type looks its address up among the type-A records: one for another host
    * under the same offset is deleted. */
  lemma OtherTypeDeletes(st: State, s: DNSSession, o: Offset, ifIP: string, faults: Faults)
    requires ReverseFiled(st.reverse) && s.a.Some? && s.a.value.allocatedIP == IP4FromOffset(o)
    requires s.qtype != TYPE_A && ReverseKey(s.clientIP, TYPE_A, o) in st.reverse
    ensures ReverseKey(s.clientIP, TYPE_A, o) !in AllocateStep(st, s, ifIP, faults).st.reverse <==>
            Recognised(o) && st.reverse[ReverseKey(s.clientIP, TYPE_A, o)].hostname != s.hostname
  {
    HoldsAt(st, s, o);
    if !Holds(st, s) {
      var released := Released(st, s);
      AllocateIsAssign(st, s, ifIP, faults);
      var free := LeastFree(UsedOffsets(released.reverse, s.clientIP, s.qtype));
      if free.Some? {
        AssignFiles(released, s, ifIP, free.value, faults);
        if ReverseKey(s.clientIP, s.qtype, free.value) == ReverseKey(s.clientIP, TYPE_A, o) {
          ReverseKeyInjective(s.clientIP, s.qtype, free.value, s.clientIP, TYPE_A, o);
        }
      }
    }
  }

  /** An unplaced session with no free offset at all is never settled. */
  lemma NoneFree(st: State, s: DNSSession, ifIP: string, faults: Faults)
    requires ReverseFiled(st.reverse) && s.qtype == TYPE_A && s.a.Some? && Unplaced(s)
    requires LeastFree(UsedOffsets(st.reverse, s.clientIP, TYPE_A)).None?
    ensures AllocateStep(st, s, ifIP, faults) == Allocated(st, s, false)
    ensures !Settled(st, s, ifIP, faults) && !SomeRecognisedFree(st, s.clientIP)
  {
    AllocatesLeast(st, s, ifIP, faults);
  }

  /** Once the first offset is taken, one allocation settles an unplaced session exactly when a
    * recognised offset is free. */
  lemma OneAllocationSettles(st: State, s: DNSSession, ifIP: string, faults: Faults)
    requires ReverseFiled(st.reverse) && s.qtype == TYPE_A && s.a.Some? && Unplaced(s)
    requires 0 in UsedOffsets(st.reverse, s.clientIP, TYPE_A)
    ensures
      var next := AllocateStep(st, s, ifIP, faults);
      Settled(next.st, next.session, ifIP, faults) <==> SomeRecognisedFree(st, s.clientIP)
  {
    var used := UsedOffsets(st.reverse, s.clientIP, TYPE_A);
    var next := AllocateStep(st, s, ifIP, faults);
    AllocatesLeast(st, s, ifIP, faults);
    match LeastFree(used)
    case None =>
      NoneFree(st, s, ifIP, faults);
    case Some(o) =>
      if Recognised(o) {
        RecognisedIsNoOp(next.st, next.session, o, ifIP, faults);
      } else {
        assert o as nat == MAX_VALUE;
        UnrecognisedIsUnplaced(next.session, o);
        NothingLeft(used, o);
        NoneFree(next.st, next.session, ifIP, faults);
      }
  }

  lemma NothingLeft(used: set<Offset>, o: Offset)
    requires o as nat == MAX_VALUE && LeastFree(used) == Some(o)
    ensures LeastFree(used + {o}) == None
    ensures forall p: Offset :: Recognised(p) ==> p in used
  {
    assert forall p: Offset :: p in used + {o};
  }

  lemma SameRecognisedFree(st: State, after: State, c: string, o: Offset)
    requires !Recognised(o) && UsedOffsets(after.reverse, c, TYPE_A) == UsedOffsets(st.reverse, c, TYPE_A) + {o}
    ensures SomeRecognisedFree(st, c) <==> SomeRecognisedFree(after, c)
  {
  }

  /** Two allocations settle a fresh session exactly when a recognised offset is free. */
  lemma TwoAllocationsSettle(st: State, s: DNSSession, ifIP: string, faults: Faults)
    requires ReverseFiled(st.reverse) && Fresh(s)
    ensures
      var first := AllocateStep(st, s, ifIP, faults);
      var second := AllocateStep(first.st, first.session, ifIP, faults);
      Settled(second.st, second.session, ifIP, faults) <==> SomeRecognisedFree(st, s.clientIP)
  {
    var used := UsedOffsets(st.reverse, s.clientIP, TYPE_A);
    var first := AllocateStep(st, s, ifIP, faults);
    AllocatesLeast(st, s, ifIP, faults);
    match LeastFree(used)
    case None =>
      NoneFree(st, s, ifIP, faults);
    case Some(o) =>
      if Recognised(o) {
        RecognisedIsNoOp(first.st, first.session, o, ifIP, faults);
      } else {
        UnrecognisedIsUnplaced(first.session, o);
        OneAllocationSettles(first.st, first.session, ifIP, faults);
        SameRecognisedFree(st, first.st, s.clientIP, o);
      }
  }

  lemma SettledOnce(st: State, s: DNSSession, ifIP: string, faults: Faults, before: Allocated)
    requires Settled(st, s, ifIP, faults) && before == Allocated(st, s, true)
    ensures AllocateStep(before.st, before.session, ifIP, faults) == Allocated(st, s, true)
  {
  }

  /** A settled session stays as it is through every later allocation. */
  lemma {:induction false} SettledForever(st: State, s: DNSSession, ifIP: string, faults: Faults, n: nat)
    requires Settled(st, s, ifIP, faults)
    ensures AllocateTimes(st, s, ifIP, faults, n) == Allocated(st, s, true)
  {
    if n == 0 {
    } else {
      SettledForever(st, s, ifIP, faults, n - 1);
      SettledOnce(st, s, ifIP, faults, AllocateTimes(st, s, ifIP, faults, n - 1));
    }
  }

  /** In every reachable state with a recognised offset free, all allocations past the second change
    * nothing. */
  lemma AllocationStabilises(events: seq<Event>, s: DNSSession, ifIP: string, faults: Faults, n: nat)
    requires Fresh(s) && SomeRecognisedFree(Run(events), s.clientIP)
    ensures
      var first := AllocateStep(Run(events), s, ifIP, faults);
      var second := AllocateStep(first.st, first.session, ifIP, faults);
      AllocateTimes(second.st, second.session, ifIP, faults, n) == Allocated(second.st, second.session, true)
  {
    RunKeepsInvariant(events, false);
    TwoAllocationsSettle(Run(events), s, ifIP, faults);
    var first := AllocateStep(Run(events), s, ifIP, faults);
    var second := AllocateStep(first.st, first.session, ifIP, faults);
    SettledForever(second.st, second.session, ifIP, faults, n);
  }
}
