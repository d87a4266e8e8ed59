/** The periodic review: which sessions survive it, and what it does to their counters. */
module ReviewLaws {
  import opened Wrappers
  import opened Records
  import opened KeyStore
  import opened ForwardState
  import opened ForwardRuns

  /** A snapshot of the store: each session once, under its own key. */
  ghost predicate Snapshot(sessions: map<string, DNSSession>, rs: seq<DNSSession>) {
    && (forall i :: 0 <= i < |rs| ==> KeyOf(rs[i]) in sessions && sessions[KeyOf(rs[i])] == rs[i])
    && (forall i, j :: 0 <= i < j < |rs| ==> KeyOf(rs[i]) != KeyOf(rs[j]))
    && (forall k :: k in sessions ==> sessions[k] in rs)
  }

  /** What a prefix query over well-keyed sessions returns. */
  lemma QueryLists(sessions: map<string, DNSSession>, prefix: string)
    requires WellKeyed(sessions)
    ensures
      var rs := GetAll(sessions, prefix);
      && (forall i :: 0 <= i < |rs| ==>
            KeyOf(rs[i]) in sessions && sessions[KeyOf(rs[i])] == rs[i] && HasPrefix(KeyOf(rs[i]), prefix))
      && (forall i, j :: 0 <= i < j < |rs| ==> KeyOf(rs[i]) != KeyOf(rs[j]))
      && (forall k :: k in sessions && HasPrefix(k, prefix) ==> sessions[k] in rs)
  {
    var keys := InOrder(set k | k in sessions && HasPrefix(k, prefix));
    var rs := GetAll(sessions, prefix);
    forall i | 0 <= i < |rs|
      ensures keys[i] in sessions && HasPrefix(keys[i], prefix) && rs[i] == sessions[keys[i]] && KeyOf(rs[i]) == keys[i]
    {
      assert keys[i] in keys;
    }
    forall k | k in sessions && HasPrefix(k, prefix)
      ensures sessions[k] in rs
    {
      GetAllHolds(sessions, prefix, sessions[k]);
    }
  }

  lemma QueryIsSnapshot(sessions: map<string, DNSSession>)
    requires WellKeyed(sessions)
    ensures Snapshot(sessions, GetAll(sessions, SESSIONS))
  {
    QueryLists(sessions, SESSIONS);
    forall k | k in sessions
      ensures HasPrefix(k, SESSIONS)
    {
      SessionKeyHasPrefix(sessions[k]);
    }
  }

  // ----- Charging the counters

  /** The counter belongs to the `i`-th session and exceeds it, and to none before it. */
  predicate ChargesFirst(rs: seq<DNSSession>, stat: Stat, i: nat) {
    i < |rs| && Charges(stat, rs[i]) && forall k :: 0 <= k < i ==> !Charges(stat, rs[k])
  }

  /** The last counter that is charged to the `i`-th session. */
  function LastCharge(rs: seq<DNSSession>, stats: seq<Stat>, i: nat): Option<Stat> {
    if stats == [] then None
    else if ChargesFirst(rs, stats[|stats| - 1], i) then Some(stats[|stats| - 1])
    else LastCharge(rs, stats[..|stats| - 1], i)
  }

  function Charged(s: DNSSession, charge: Option<Stat>, now: int): DNSSession {
    if charge.None? then s else s.(bytesUsed := charge.value.bytes, sessionExpiry := now + 630)
  }

  /** Every session of the snapshot is as the last counter charged to it left it; nothing else moved. */
  ghost predicate AllCharged(st: State, after: State, rs: seq<DNSSession>, stats: seq<Stat>, now: int) {
    && after.reverse == st.reverse && after.table == st.table && after.fw == st.fw
    && after.sessions.Keys == st.sessions.Keys
    && forall i :: 0 <= i < |rs| && KeyOf(rs[i]) in after.sessions ==>
          after.sessions[KeyOf(rs[i])] == Charged(rs[i], LastCharge(rs, stats, i), now)
  }

  /** A counter is charged to the first session it belongs to and exceeds, or to none. */
  lemma {:induction false} ChargeOneExactly(st: State, rs: seq<DNSSession>, stat: Stat, now: int,
      n: nat) returns (first: Option<nat>)
    requires n <= |rs| && forall k :: 0 <= k < n ==> !Charges(stat, rs[k])
    ensures first.Some? ==> ChargesFirst(rs, stat, first.value)
    ensures first.None? ==> forall k :: 0 <= k < |rs| ==> !Charges(stat, rs[k])
    ensures ChargeOne(st, rs[n..], stat, now)
         == if first.None? then st
            else UpdateSession(st, rs[first.value].(bytesUsed := stat.bytes, sessionExpiry := now + 630))
    decreases |rs| - n
  {
    if n == |rs| {
      first := None;
    } else if Charges(stat, rs[n]) {
      first := Some(n);
    } else {
      assert rs[n..][1..] == rs[n + 1..];
      first := ChargeOneExactly(st, rs, stat, now, n + 1);
    }
  }

  lemma LastChargeNext(rs: seq<DNSSession>, stats: seq<Stat>, stat: Stat, i: nat)
    ensures LastCharge(rs, stats + [stat], i)
         == if ChargesFirst(rs, stat, i) then Some(stat) else LastCharge(rs, stats, i)
  {
    assert (stats + [stat])[..|stats|] == stats;
  }

  lemma ChargedKey(s: DNSSession, charge: Option<Stat>, now: int)
    ensures KeyOf(Charged(s, charge, now)) == KeyOf(s)
  {
  }

  /** Charging the session at `first` leaves every other one as it was. */
  lemma ChargeAt(before: State, rs: seq<DNSSession>, first: nat, stat: Stat, now: int, i: nat)
    requires first < |rs| && i < |rs| && KeyOf(rs[first]) in before.sessions && KeyOf(rs[i]) in before.sessions
    requires forall a, b :: 0 <= a < b < |rs| ==> KeyOf(rs[a]) != KeyOf(rs[b])
    ensures
      var s := Charged(rs[first], Some(stat), now);
      var after := UpdateSession(before, s).sessions;
      KeyOf(rs[i]) in after && after[KeyOf(rs[i])] == if i == first then s else before.sessions[KeyOf(rs[i])]
  {
    ChargedKey(rs[first], Some(stat), now);
  }

  lemma ChargeNextAt(before: State, after: State, rs: seq<DNSSession>, stats: seq<Stat>, stat: Stat, now: int,
                     first: Option<nat>, i: nat)
    requires i < |rs| && KeyOf(rs[i]) in before.sessions
    requires forall a, b :: 0 <= a < b < |rs| ==> KeyOf(rs[a]) != KeyOf(rs[b])
    requires before.sessions[KeyOf(rs[i])] == Charged(rs[i], LastCharge(rs, stats, i), now)
    requires first.Some? ==> ChargesFirst(rs, stat, first.value) && KeyOf(rs[first.value]) in before.sessions
    requires first.None? ==> forall k :: 0 <= k < |rs| ==> !Charges(stat, rs[k])
    requires after == if first.None? then before else UpdateSession(before, Charged(rs[first.value], Some(stat), now))
    ensures KeyOf(rs[i]) in after.sessions
    ensures after.sessions[KeyOf(rs[i])] == Charged(rs[i], LastCharge(rs, stats + [stat], i), now)
  {
    LastChargeNext(rs, stats, stat, i);
    if first.Some? {
      ChargeAt(before, rs, first.value, stat, now, i);
    }
  }

  /** A charge moves no key, and nothing but sessions. */
  lemma {:induction false} ChargeFrame(st: State, rs: seq<DNSSession>, stat: Stat, now: int)
    ensures
      var after := ChargeOne(st, rs, stat, now);
      && after.reverse == st.reverse && after.table == st.table && after.fw == st.fw
      && after.sessions.Keys == st.sessions.Keys
  {
    if rs != [] && !Charges(stat, rs[0]) {
      ChargeFrame(st, rs[1..], stat, now);
    }
  }

  lemma ChargeNextSessions(st: State, before: State, rs: seq<DNSSession>, stats: seq<Stat>, stat: Stat, now: int,
                           i: nat)
    requires Snapshot(st.sessions, rs) && AllCharged(st, before, rs, stats, now) && i < |rs|
    ensures
      var after := ChargeOne(before, rs, stat, now).sessions;
      KeyOf(rs[i]) in after && after[KeyOf(rs[i])] == Charged(rs[i], LastCharge(rs, stats + [stat], i), now)
  {
    assert rs[0..] == rs;
    var first := ChargeOneExactly(before, rs, stat, now, 0);
    ChargeNextAt(before, ChargeOne(before, rs, stat, now), rs, stats, stat, now, first, i);
  }

  lemma ChargeNext(st: State, before: State, rs: seq<DNSSession>, stats: seq<Stat>, stat: Stat, now: int)
    requires Snapshot(st.sessions, rs) && AllCharged(st, before, rs, stats, now)
    ensures AllCharged(st, ChargeOne(before, rs, stat, now), rs, stats + [stat], now)
  {
    ChargeFrame(before, rs, stat, now);
    forall i: nat | i < |rs|
      ensures
        var after := ChargeOne(before, rs, stat, now).sessions;
        KeyOf(rs[i]) in after && after[KeyOf(rs[i])] == Charged(rs[i], LastCharge(rs, stats + [stat], i), now)
    {
      ChargeNextSessions(st, before, rs, stats, stat, now, i);
    }
  }

  lemma {:induction false} ChargeAllExactly(st: State, rs: seq<DNSSession>, stats: seq<Stat>, now: int)
    requires Snapshot(st.sessions, rs)
    ensures AllCharged(st, ChargeAll(st, rs, stats, now), rs, stats, now)
  {
    if stats == [] {
    } else {
      var last := |stats| - 1;
      ChargeAllExactly(st, rs, stats[..last], now);
      ChargeNext(st, ChargeAll(st, rs, stats[..last], now), rs, stats[..last], stats[last], now);
      assert stats[..last] + [stats[last]] == stats;
    }
  }

  /** A charge only raises the counter. */
  lemma {:induction false} ChargeRaises(rs: seq<DNSSession>, stats: seq<Stat>, i: nat)
    requires i < |rs|
    ensures
      var charge := LastCharge(rs, stats, i);
      charge.Some? ==> charge.value in stats && Charges(charge.value, rs[i])
  {
    if stats != [] && !ChargesFirst(rs, stats[|stats| - 1], i) {
      ChargeRaises(rs, stats[..|stats| - 1], i);
    }
  }

  // ----- Expiring sessions

  lemma ExpireOneDrops(st: State, s: DNSSession, now: int, faults: Faults)
    requires KeyOf(s) in st.sessions
    ensures KeyOf(s) in ExpireOne(st, s, now, faults).sessions <==>
            now <= s.sessionExpiry || !RemovalOf(st, s, faults).ok
  {
  }

  lemma ExpireOthersKeep(st: State, s: DNSSession, now: int, faults: Faults, k: string)
    requires KeyOf(s) != k
    ensures k in ExpireOne(st, s, now, faults).sessions <==> k in st.sessions
  {
  }

  /** The `i`-th session of the snapshot is dropped by a review of the first `n` exactly when its
    * turn came, its expiry had passed, and its rule was removed. */
  lemma {:induction false} ExpireAllDrops(st: State, rs: seq<DNSSession>, now: int, faults: Faults, n: nat, i: nat)
    requires n <= |rs| && i < |rs| && KeyOf(rs[i]) in st.sessions
    requires forall a, b :: 0 <= a < b < |rs| ==> KeyOf(rs[a]) != KeyOf(rs[b])
    ensures KeyOf(rs[i]) in ExpireAll(st, rs[..n], now, faults).sessions <==>
            n <= i || now <= rs[i].sessionExpiry || !RemovalOf(ExpireAll(st, rs[..i], now, faults), rs[i], faults).ok
  {
    if n == 0 {
      assert rs[..n] == [];
    } else {
      var before := ExpireAll(st, rs[..n - 1], now, faults);
      assert rs[..n][..n - 1] == rs[..n - 1];
      ExpireAllDrops(st, rs, now, faults, n - 1, i);
      if n - 1 == i {
        ExpireOneDrops(before, rs[i], now, faults);
      } else {
        assert KeyOf(rs[n - 1]) != KeyOf(rs[i]);
        ExpireOthersKeep(before, rs[n - 1], now, faults, KeyOf(rs[i]));
      }
    }
  }

  /** A session survives the review exactly when the expiry it had before had not passed, or the
    * packet filter failed to remove its rule when its turn came. */
  lemma SurvivesExactly(st: State, stats: seq<Stat>, now: int, faults: Faults, i: nat)
    requires WellKeyed(st.sessions) && i < |GetAll(st.sessions, SESSIONS)|
    ensures
      var rs := GetAll(st.sessions, SESSIONS);
      var charged := if st.fw.Some? then ChargeAll(st, rs, stats, now) else st;
      KeyOf(rs[i]) in ReviewStep(st, stats, now, faults).sessions <==>
      now <= rs[i].sessionExpiry
      || !RemovalOf(ExpireAll(charged, rs[..i], now, faults), rs[i], faults).ok
  {
    var rs := GetAll(st.sessions, SESSIONS);
    QueryIsSnapshot(st.sessions);
    ChargeAllExactly(st, rs, stats, now);
    var charged := if st.fw.Some? then ChargeAll(st, rs, stats, now) else st;
    ExpireAllDrops(charged, rs, now, faults, |rs|, i);
    assert rs[..|rs|] == rs;
  }

  /** A survivor is the session it was, as the last counter charged to it left it; the counter never
    * decreases. */
  lemma SurvivorsCharged(st: State, stats: seq<Stat>, now: int, faults: Faults, i: nat)
    requires WellKeyed(st.sessions) && i < |GetAll(st.sessions, SESSIONS)|
    ensures
      var rs := GetAll(st.sessions, SESSIONS);
      var after := ReviewStep(st, stats, now, faults).sessions;
      KeyOf(rs[i]) in after ==>
        && after[KeyOf(rs[i])] == Charged(rs[i], if st.fw.Some? then LastCharge(rs, stats, i) else None, now)
        && after[KeyOf(rs[i])].bytesUsed >= rs[i].bytesUsed
  {
    var rs := GetAll(st.sessions, SESSIONS);
    QueryIsSnapshot(st.sessions);
    ChargeAllExactly(st, rs, stats, now);
    ChargeRaises(rs, stats, i);
    var charged := if st.fw.Some? then ChargeAll(st, rs, stats, now) else st;
    ExpireAllSubmap(charged, rs, now, faults);
  }

  lemma {:induction false} ExpireAllSubmap(st: State, rs: seq<DNSSession>, now: int, faults: Faults)
    ensures Submap(ExpireAll(st, rs, now, faults).sessions, st.sessions)
  {
    if rs == [] {
    } else {
      ExpireAllSubmap(st, rs[..|rs| - 1], now, faults);
    }
  }

  // ----- Which session a counter belongs to

  /** A counter is for a client and the address it was given. */
  predicate IsFor(stat: Stat, s: DNSSession) {
    s.a.Some? && stat.source == s.clientIP && stat.destination == s.a.value.allocatedIP
  }

  lemma {:induction false} LastChargeIs(rs: seq<DNSSession>, stats: seq<Stat>, i: nat, n: nat)
    requires n < |stats| && ChargesFirst(rs, stats[n], i)
    requires forall m :: n < m < |stats| ==> !ChargesFirst(rs, stats[m], i)
    ensures LastCharge(rs, stats, i) == Some(stats[n])
  {
    if n == |stats| - 1 {
    } else {
      LastChargeIs(rs, stats[..|stats| - 1], i, n);
    }
  }

  lemma {:induction false} NoCharge(rs: seq<DNSSession>, stats: seq<Stat>, i: nat)
    requires forall m :: 0 <= m < |stats| ==> !ChargesFirst(rs, stats[m], i)
    ensures LastCharge(rs, stats, i) == None
  {
    if stats == [] {
    } else {
      NoCharge(rs, stats[..|stats| - 1], i);
    }
  }

  lemma InSnapshot(sessions: map<string, DNSSession>, k: string) returns (i: nat)
    requires WellKeyed(sessions) && k in sessions
    ensures
      var rs := GetAll(sessions, SESSIONS);
      i < |rs| && rs[i] == sessions[k] && Snapshot(sessions, rs)
  {
    QueryIsSnapshot(sessions);
    i :| 0 <= i < |GetAll(sessions, SESSIONS)| && GetAll(sessions, SESSIONS)[i] == sessions[k];
  }

  /** A surviving session whose one counter, that of no other session, exceeds its own takes the counter
    * over and lives 630 seconds from now. */
  lemma OwnCounterCharges(st: State, stats: seq<Stat>, now: int, faults: Faults, k: string, n: nat)
    requires WellKeyed(st.sessions) && st.fw.Some? && k in st.sessions && n < |stats|
    requires IsFor(stats[n], st.sessions[k]) && stats[n].bytes > st.sessions[k].bytesUsed
    requires forall m :: 0 <= m < |stats| && m != n ==> !IsFor(stats[m], st.sessions[k])
    requires forall l :: l in st.sessions && l != k ==> !IsFor(stats[n], st.sessions[l])
    ensures
      var after := ReviewStep(st, stats, now, faults).sessions;
      k in after ==> after[k] == st.sessions[k].(bytesUsed := stats[n].bytes, sessionExpiry := now + 630)
  {
    var rs := GetAll(st.sessions, SESSIONS);
    var i := InSnapshot(st.sessions, k);
    forall j | 0 <= j < i
      ensures !Charges(stats[n], rs[j])
    {
      assert KeyOf(rs[j]) != k;
    }
    LastChargeIs(rs, stats, i, n);
    SurvivorsCharged(st, stats, now, faults, i);
  }

  /** A surviving session that no counter is for, or none exceeds, is as it was; so are all without a
    * backend. */
  lemma NoCounterLeaves(st: State, stats: seq<Stat>, now: int, faults: Faults, k: string)
    requires WellKeyed(st.sessions) && k in st.sessions
    requires st.fw.None? || forall m :: 0 <= m < |stats| ==>
               !IsFor(stats[m], st.sessions[k]) || stats[m].bytes <= st.sessions[k].bytesUsed
    ensures
      var after := ReviewStep(st, stats, now, faults).sessions;
      k in after ==> after[k] == st.sessions[k]
  {
    var rs := GetAll(st.sessions, SESSIONS);
    var i := InSnapshot(st.sessions, k);
    if st.fw.Some? {
      NoCharge(rs, stats, i);
    }
    SurvivorsCharged(st, stats, now, faults, i);
  }
}
