/** The NAT table holds exactly the rules of the stored sessions: what that means, and how a step that
  * swaps rules and changes one session bears on it. */
module NatAgreement {
  import opened Records
  import opened KeyStore
  import opened ForwardState
  import opened ForwardRuns
  import opened ReviewLaws

  // ----- Agreement

  /** A session with an A record and an allocated address other than its client's has a rule. */
  predicate HasRule(s: DNSSession) {
    s.a.Some? && s.a.value.allocatedIP != "" && s.a.value.allocatedIP != s.clientIP
  }

  predicate Owns(s: DNSSession, r: NatRule) {
    HasRule(s) && NatRuleOf(SessionRule(s)) == r
  }

  ghost function Owners(sessions: map<string, DNSSession>, r: NatRule): set<string> {
    set k | k in sessions && Owns(sessions[k], r)
  }

  /** Each rule of `c` is in the table once for every session of `c` it belongs to. */
  ghost predicate Agrees(st: State, c: string) {
    forall r: NatRule :: r.source == c ==> st.table[r] == |Owners(st.sessions, r)|
  }

  ghost predicate AgreesForAll(st: State) {
    forall r: NatRule :: st.table[r] == |Owners(st.sessions, r)|
  }

  function Indicator(s: DNSSession, r: NatRule): nat {
    if Owns(s, r) then 1 else 0
  }

  // ----- Counting owners

  lemma OwnersWithout(sessions: map<string, DNSSession>, k: string, r: NatRule)
    requires k in sessions
    ensures |Owners(WithoutKey(sessions, k), r)| == |Owners(sessions, r)| - Indicator(sessions[k], r)
  {
    assert Owners(WithoutKey(sessions, k), r) == Owners(sessions, r) - {k};
  }

  lemma OwnersWith(sessions: map<string, DNSSession>, k: string, s: DNSSession, r: NatRule)
    requires k !in sessions
    ensures |Owners(sessions[k := s], r)| == |Owners(sessions, r)| + Indicator(s, r)
  {
    assert Owners(sessions[k := s], r) == Owners(sessions, r) + if Owns(s, r) then {k} else {};
  }

  // ----- The balance of a step

  function RuleOf(s: DNSSession): NatRule {
    NatRuleOf(SessionRule(s))
  }

  /** The rule a session has, if it has one. */
  function RuleBag(s: DNSSession): multiset<NatRule> {
    if HasRule(s) then multiset{RuleOf(s)} else multiset{}
  }

  function BagAt(sessions: map<string, DNSSession>, k: string): multiset<NatRule> {
    if k in sessions then RuleBag(sessions[k]) else multiset{}
  }

  lemma OwnersBeside(sessions: map<string, DNSSession>, k: string, r: NatRule)
    ensures |Owners(sessions, r)| == |Owners(WithoutKey(sessions, k), r)| + BagAt(sessions, k)[r]
  {
    if k in sessions {
      OwnersWithout(sessions, k, r);
    } else {
      assert WithoutKey(sessions, k) == sessions;
    }
  }

  /** A step that touches the session under `k` and swaps rules `lost` for `gained`. */
  ghost predicate Swaps(st: State, after: State, k: string, lost: multiset<NatRule>, gained: multiset<NatRule>) {
    after.table + lost == st.table + gained && WithoutKey(after.sessions, k) == WithoutKey(st.sessions, k)
  }

  lemma BalanceAt(st: State, after: State, k: string, lost: multiset<NatRule>, gained: multiset<NatRule>, r: NatRule)
    requires Swaps(st, after, k, lost, gained) && st.table[r] == |Owners(st.sessions, r)|
    ensures after.table[r] == |Owners(after.sessions, r)| <==>
            (gained + BagAt(st.sessions, k))[r] == (lost + BagAt(after.sessions, k))[r]
  {
    OwnersBeside(st.sessions, k, r);
    OwnersBeside(after.sessions, k, r);
    assert (after.table + lost)[r] == (st.table + gained)[r];
  }

  lemma SameBags<T>(a: multiset<T>, b: multiset<T>)
    ensures a == b <==> forall x :: a[x] == b[x]
  {
  }

  /** Agreement is kept exactly when the rule the session had is swapped for the one it has. */
  lemma Balance(st: State, after: State, k: string, lost: multiset<NatRule>, gained: multiset<NatRule>)
    requires AgreesForAll(st) && Swaps(st, after, k, lost, gained)
    ensures AgreesForAll(after) <==> gained + BagAt(st.sessions, k) == lost + BagAt(after.sessions, k)
  {
    var a, b := gained + BagAt(st.sessions, k), lost + BagAt(after.sessions, k);
    forall r: NatRule
      ensures after.table[r] == |Owners(after.sessions, r)| <==> a[r] == b[r]
    {
      BalanceAt(st, after, k, lost, gained, r);
    }
    SameBags(a, b);
    assert AgreesForAll(after) <==> forall r: NatRule :: a[r] == b[r];
  }

  predicate OfSource(bag: multiset<NatRule>, c: string) {
    forall r :: r in bag ==> r.source == c
  }

  /** The same for one client, whatever holds of the others. */
  lemma BalanceOf(st: State, after: State, k: string, lost: multiset<NatRule>, gained: multiset<NatRule>, c: string)
    requires Agrees(st, c) && Swaps(st, after, k, lost, gained) && OfSource(lost, c) && OfSource(gained, c)
    requires OfSource(BagAt(st.sessions, k), c) && OfSource(BagAt(after.sessions, k), c)
    ensures Agrees(after, c) <==> gained + BagAt(st.sessions, k) == lost + BagAt(after.sessions, k)
    ensures forall r: NatRule :: r.source != c ==> after.table[r] == st.table[r]
  {
    var a, b := gained + BagAt(st.sessions, k), lost + BagAt(after.sessions, k);
    forall r: NatRule | r.source == c
      ensures after.table[r] == |Owners(after.sessions, r)| <==> a[r] == b[r]
    {
      BalanceAt(st, after, k, lost, gained, r);
    }
    forall r: NatRule | r.source != c
      ensures after.table[r] == st.table[r] && a[r] == b[r] == 0
    {
      assert (after.table + lost)[r] == (st.table + gained)[r];
    }
    SameBags(a, b);
    assert Agrees(after, c) <==> forall r: NatRule :: a[r] == b[r];
  }

  lemma SameBeside(sessions: map<string, DNSSession>, k: string, s: DNSSession)
    ensures WithoutKey(sessions[k := s], k) == WithoutKey(sessions, k)
    ensures WithoutKey(WithoutKey(sessions, k), k) == WithoutKey(sessions, k)
  {
  }

  // ----- Sessions of one client

  const NONE: Faults := Faults({}, {})

  /** A list of stored sessions, each once. */
  ghost predicate Stored(sessions: map<string, DNSSession>, rs: seq<DNSSession>) {
    && (forall i :: 0 <= i < |rs| ==> KeyOf(rs[i]) in sessions && sessions[KeyOf(rs[i])] == rs[i])
    && (forall i, j :: 0 <= i < j < |rs| ==> KeyOf(rs[i]) != KeyOf(rs[j]))
  }

  ghost predicate StoredOf(sessions: map<string, DNSSession>, rs: seq<DNSSession>, c: string) {
    Stored(sessions, rs) && forall i :: 0 <= i < |rs| ==> rs[i].clientIP == c
  }

  lemma QueriedStored(st: State, prefix: string)
    requires WellKeyed(st.sessions)
    ensures
      var rs := GetAll(st.sessions, prefix);
      Stored(st.sessions, rs) && forall k :: k in st.sessions ==> (IsOf(rs, k) <==> HasPrefix(k, prefix))
  {
    QueryLists(st.sessions, prefix);
  }

  lemma QueriedOfClient(st: State, c: string)
    requires Invariant(st, true) && IsClient(c)
    ensures
      var rs := GetAll(st.sessions, SessionPrefix(c));
      && StoredOf(st.sessions, rs, c)
      && forall k :: k in st.sessions ==> (IsOf(rs, k) <==> st.sessions[k].clientIP == c)
  {
    QueriedStored(st, SessionPrefix(c));
    ClientsSelectOwn(st.sessions, c);
  }

  // ----- What agreement means

  /** The rules of `c` in the table are none for the empty address or the client's own. */
  lemma TableRules(st: State, r: NatRule)
    requires Agrees(st, r.source) && r in st.table
    ensures r.destination != "" && r.destination != r.source
  {
    var k :| k in Owners(st.sessions, r);
  }

  lemma StoredRuleInTable(st: State, k: string)
    requires k in st.sessions && HasRule(st.sessions[k]) && Agrees(st, st.sessions[k].clientIP)
    ensures RuleOf(st.sessions[k]) in st.table
  {
    assert k in Owners(st.sessions, RuleOf(st.sessions[k]));
  }

  /** In an agreeing state, a session's rule is in the table, redirects to the interface exactly when its
    * reason is above zero, and stands in the output chain exactly when that is the client itself. */
  lemma RuleRedirects(st: State, k: string)
    requires k in st.sessions && HasRule(st.sessions[k]) && Agrees(st, st.sessions[k].clientIP)
    ensures
      var s := st.sessions[k];
      var r := RuleOf(s);
      && r in st.table && r.source == s.clientIP && r.destination == s.a.value.allocatedIP
      && r.target == (if s.reasonCode > 0 then s.interfaceIP else s.a.value.ip)
      && (r.chain == OUTPUT <==> s.interfaceIP == s.clientIP)
  {
    StoredRuleInTable(st, k);
  }
}
