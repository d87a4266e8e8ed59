/** The verdict on a host name: local names, rejected clients, allow lists and block lists. */
module DomainAccess {
  import opened Wrappers
  import opened Labels
  import opened Records
  import opened Text

  datatype AccessProfile = AccessProfile(name: string, allowedDomains: seq<string>, blockedDomains: seq<string>)

  datatype DNSConfiguration = DNSConfiguration(address: string, mode: nat)

  datatype SessionInfo = SessionInfo(
    clientIP: string, username: string, role: string, dynamicRouting: bool,
    accessProfile: Option<AccessProfile>, dns: Option<DNSConfiguration>, rejectReason: nat, reevaluate: bool)

  // ----- The verdict

  function HostName(hostname: string): string {
    ToLower(TrimDots(hostname))
  }

  predicate IsRejected(reason: nat) {
    reason == ACCESS_BLOCKED_NOT_AUTHENTICATED || reason == ACCESS_BLOCKED_UNAUTHORISED
  }

  /** The allow-list test as written: the name, or a name whose rest past the length of `d` is `d`. */
  predicate Admits(d: string, name: string) {
    name == d || (|name| > |d| && name[|d|..] == d)
  }

  /** The wildcard of a blacklist pattern: the domain itself, or a name under it. */
  predicate MatchesWildcard(name: string, pattern: string) {
    |pattern| >= 2 && pattern[..2] == "*."
    && (HasSuffix(name, "." + pattern[2..]) || name == pattern[2..])
  }

  ghost predicate Blocked(domains: seq<string>, name: string) {
    exists d :: d in domains && MatchesWildcard(name, "*." + d)
  }

  ghost predicate Admitted(domains: seq<string>, name: string) {
    exists d :: d in domains && Admits(d, name)
  }

  ghost function Verdict(ses: SessionInfo, dns: DNSSession): nat {
    if dns.isLocal || IsRejected(ses.rejectReason) || ses.accessProfile.None? then ses.rejectReason
    else
      var p, name := ses.accessProfile.value, HostName(dns.hostname);
      if p.allowedDomains != [] then
        if Admitted(p.allowedDomains, name) then ACCESS_ALLOWED else ACCESS_BLOCKED_RULE
      else if Blocked(p.blockedDomains, name) then ACCESS_BLOCKED_RULE
      else ACCESS_ALLOWED
  }

  /** The record after the verdict: a missing profile overwrites the reason of the record. */
  function Written(ses: SessionInfo, dns: DNSSession): DNSSession {
    if !dns.isLocal && !IsRejected(ses.rejectReason) && ses.accessProfile.None?
    then dns.(reasonCode := ACCESS_BLOCKED_RULE) else dns
  }

  lemma SuffixTest(name: string, d: string)
    ensures MatchesWildcard(name, "*." + d) <==>
            name == d || (|name| > |d| && name[|name| - |d| - 1..] == "." + d)
  {
    assert ("*." + d)[..2] == "*." && ("*." + d)[2..] == d;
  }

  /** In plain terms: a local name, or a client that is not authenticated or not authorised, gets the reject
    * reason; without a profile that is the answer too, but the record gets reason 3. An allow list admits
    * the names one of its entries admits, and no others; a block list blocks the names a wildcard over one
    * of its entries matches, and no others. */
  ghost predicate Decides(ses: SessionInfo, dns: DNSSession, reason: nat, record: DNSSession) {
    if dns.isLocal || ses.rejectReason == 1 || ses.rejectReason == 2 then
      reason == ses.rejectReason && record == dns
    else if ses.accessProfile.None? then
      reason == ses.rejectReason && record == dns.(reasonCode := 3)
    else
      var p, name := ses.accessProfile.value, HostName(dns.hostname);
      record == dns && reason ==
      if p.allowedDomains == [] then
        if exists d :: d in p.blockedDomains && MatchesWildcard(name, "*." + d) then 3 else 0
      else
        if exists d :: d in p.allowedDomains && (name == d || (|name| > |d| && name[|d|..] == d)) then 0 else 3
  }

  lemma VerdictDecides(ses: SessionInfo, dns: DNSSession)
    ensures Decides(ses, dns, Verdict(ses, dns), Written(ses, dns))
  {
  }

  /** The scan of an allow list. */
  method IsAdmitted(domains: seq<string>, name: string) returns (admitted: bool)
    ensures admitted <==> Admitted(domains, name)
  {
    for i := 0 to |domains|
      invariant forall k :: 0 <= k < i ==> !Admits(domains[k], name)
    {
      var d := domains[i];
      if name == d {
        assert Admits(d, name);
        return true;
      } else if |name| > |d| && name[|d|..] == d {
        assert Admits(d, name);
        return true;
      }
    }
    return false;
  }

  /** The scan of a block list. */
  method IsBlocked(domains: seq<string>, name: string) returns (blocked: bool)
    ensures blocked <==> Blocked(domains, name)
  {
    for i := 0 to |domains|
      invariant forall k :: 0 <= k < i ==> !MatchesWildcard(name, "*." + domains[k])
    {
      var d := domains[i];
      SuffixTest(name, d);
      if name == d {
        return true;
      } else if |name| > |d| {
        var test := name[|name| - |d| - 1..];
        if test == "." + d {
          return true;
        }
      }
    }
    return false;
  }

  method VerifyDomainAccess(ses: SessionInfo, dns: DNSSession) returns (reason: nat, record: DNSSession)
    ensures reason == Verdict(ses, dns) && record == Written(ses, dns)
    ensures Decides(ses, dns, reason, record)
  {
    VerdictDecides(ses, dns);
    record := dns;
    if !dns.isLocal {
      if ses.rejectReason != ACCESS_BLOCKED_NOT_AUTHENTICATED && ses.rejectReason != ACCESS_BLOCKED_UNAUTHORISED {
        if ses.accessProfile.None? {
          record := dns.(reasonCode := ACCESS_BLOCKED_RULE);
        } else {
          var p := ses.accessProfile.value;
          if |p.allowedDomains| > 0 || |p.blockedDomains| > 0 {
            var name := ToLower(TrimDots(dns.hostname));
            if |p.allowedDomains| > 0 {
              var admitted := IsAdmitted(p.allowedDomains, name);
              return if admitted then ACCESS_ALLOWED else ACCESS_BLOCKED_RULE, record;
            }
            var blocked := IsBlocked(p.blockedDomains, name);
            if blocked {
              return ACCESS_BLOCKED_RULE, record;
            }
          }
          return ACCESS_ALLOWED, record;
        }
      }
    }
    return ses.rejectReason, record;
  }

  // ----- What block lists do

  /** A session the block list decides on. */
  predicate BlockListDecides(ses: SessionInfo, dns: DNSSession) {
    && !dns.isLocal && !IsRejected(ses.rejectReason)
    && ses.accessProfile.Some? && ses.accessProfile.value.allowedDomains == []
  }

  lemma HostNameUnder(sub: string, hostname: string)
    requires HostName(hostname) != ""
    ensures HostName(sub + "." + hostname) == ToLower(sub) + "." + HostName(hostname)
  {
    TrimDotsConcat(sub + ".", hostname);
    ToLowerConcat(sub + ".", TrimDots(hostname));
    ToLowerConcat(sub, ".");
  }

  lemma SuffixUnderName(sub: string, name: string, d: string)
    requires name == d || HasSuffix(name, "." + d)
    ensures HasSuffix(sub + "." + name, "." + d)
  {
    var longer := sub + "." + name;
    if name == d {
      assert longer[|longer| - |"." + d|..] == "." + d;
    } else {
      assert longer[|longer| - |"." + d|..] == name[|name| - |"." + d|..];
    }
  }

  lemma BlockedUnder(domains: seq<string>, name: string, sub: string)
    requires Blocked(domains, name)
    ensures Blocked(domains, sub + "." + name)
  {
    var d :| d in domains && MatchesWildcard(name, "*." + d);
    assert ("*." + d)[2..] == d;
    SuffixUnderName(sub, name, d);
    assert MatchesWildcard(sub + "." + name, "*." + d);
  }

  /** Blocking a name blocks everything under it, the root apart. */
  lemma SubdomainsBlocked(ses: SessionInfo, dns: DNSSession, sub: string)
    requires BlockListDecides(ses, dns) && Verdict(ses, dns) == ACCESS_BLOCKED_RULE
    requires HostName(dns.hostname) != ""
    ensures Verdict(ses, dns.(hostname := sub + "." + dns.hostname)) == ACCESS_BLOCKED_RULE
  {
    HostNameUnder(sub, dns.hostname);
    BlockedUnder(ses.accessProfile.value.blockedDomains, HostName(dns.hostname), ToLower(sub));
  }

  /** A name longer than every listed domain, in one label. */
  function LongLabel(domains: seq<string>): (long: string)
    ensures long != "" && forall c :: c in long ==> c == 'a'
    ensures forall d :: d in domains ==> |long| > |d|
  {
    if domains == [] then "a"
    else
      var rest := LongLabel(domains[1..]);
      if |rest| > |domains[0]| then rest else seq(|domains[0]| + 1, _ => 'a')
  }

  lemma LongLabelNotBlocked(domains: seq<string>)
    ensures !Blocked(domains, LongLabel(domains))
  {
    var long := LongLabel(domains);
    forall d | d in domains
      ensures !MatchesWildcard(long, "*." + d)
    {
      SuffixTest(long, d);
      if |long| > |d| {
        assert long[|long| - |d| - 1] in long;
      }
    }
  }

  lemma HostNameUnderRoot(long: string, hostname: string)
    requires HostName(hostname) == "" && long != "" && forall c :: c in long ==> c == 'a'
    ensures HostName(long + "." + hostname) == long
  {
    assert TrimDots(".") == TrimDots("") == "" by { assert "."[..0] == ""; }
    TrimDotsAway(".", hostname);
    TrimDotsAway(long, "." + hostname);
    assert long + "." + hostname == long + ("." + hostname);
    assert long[|long| - 1] in long;
    assert forall i :: 0 <= i < |long| ==> long[i] in long;
    assert ToLower(long) == long;
  }

  /** Blocking is closed under subdomains for exactly the names other than the root: an empty entry
    * blocks the root, and never everything under it. */
  lemma ClosedExactly(ses: SessionInfo, dns: DNSSession)
    requires BlockListDecides(ses, dns) && Verdict(ses, dns) == ACCESS_BLOCKED_RULE
    ensures (forall sub: string :: Verdict(ses, dns.(hostname := sub + "." + dns.hostname)) == ACCESS_BLOCKED_RULE)
       <==> HostName(dns.hostname) != ""
  {
    if HostName(dns.hostname) != "" {
      forall sub: string
        ensures Verdict(ses, dns.(hostname := sub + "." + dns.hostname)) == ACCESS_BLOCKED_RULE
      {
        SubdomainsBlocked(ses, dns, sub);
      }
    } else {
      var sub := LongLabel(ses.accessProfile.value.blockedDomains);
      HostNameUnderRoot(sub, dns.hostname);
      LongLabelNotBlocked(ses.accessProfile.value.blockedDomains);
      assert Verdict(ses, dns.(hostname := sub + "." + dns.hostname)) == ACCESS_ALLOWED;
    }
  }

  /** The verdict does not depend on the case of letters, nor on dots at the end. */
  lemma VerdictIgnoresCase(ses: SessionInfo, dns: DNSSession, hostname: string)
    requires SameButCase(dns.hostname, hostname)
    ensures Verdict(ses, dns.(hostname := hostname)) == Verdict(ses, dns)
    ensures Verdict(ses, dns.(hostname := hostname + ".")) == Verdict(ses, dns)
  {
    TrimDotsSameCase(dns.hostname, hostname);
    SameCaseLower(TrimDots(dns.hostname), TrimDots(hostname));
    assert (hostname + ".")[..|hostname|] == hostname;
  }

  /** More blocked domains block no less. */
  lemma BlockingMonotone(ses: SessionInfo, more: SessionInfo, dns: DNSSession)
    requires BlockListDecides(ses, dns) && BlockListDecides(more, dns)
    requires forall d :: d in ses.accessProfile.value.blockedDomains ==> d in more.accessProfile.value.blockedDomains
    ensures Verdict(ses, dns) == ACCESS_BLOCKED_RULE ==> Verdict(more, dns) == ACCESS_BLOCKED_RULE
  {
  }

  /** The allow list, for contrast: a name under an allowed domain passes only when the part before
    * the dot is one shorter than the domain, or another entry admits it. */
  lemma AllowedSubdomainExactly(d: string, sub: string)
    ensures Admits(d, sub + "." + d) <==> |sub| + 1 == |d|
  {
    var name := sub + "." + d;
    if |sub| + 1 == |d| {
      assert name[|d|..] == d;
    }
  }
}
