/** The hosts of the local /24 in random order, each exactly once. */
module HostOrder {
  import opened Wrappers
  import opened Bits
  import opened Sampling
  import opened Shuffle

  type IP = seq<Byte>

  function ByteAt(ip: IP, k: nat): Byte {
    if k < |ip| then ip[k] else 0
  }

  /** The first three bytes of `ownIP` followed by the host number. */
  function HostAddress(ownIP: IP, host: Byte): IP {
    [ByteAt(ownIP, 0), ByteAt(ownIP, 1), ByteAt(ownIP, 2), host]
  }

  /** The addresses of hosts 1 up to `last`, in order, without `ownIP`. */
  function HostsUpTo(ownIP: IP, last: nat): (hosts: seq<IP>)
    requires last <= 254
    ensures |hosts| <= last
  {
    if last == 0 then []
    else if HostAddress(ownIP, last as Byte) == ownIP then HostsUpTo(ownIP, last - 1)
    else HostsUpTo(ownIP, last - 1) + [HostAddress(ownIP, last as Byte)]
  }

  /** Four bytes: the first three of `ownIP`, as far as it has them, and a host number. */
  ghost predicate IsOtherHost(ownIP: IP, ip: IP, last: nat) {
    && |ip| == 4 && ip != ownIP && 1 <= ip[3] as nat <= last
    && forall k :: 0 <= k < 3 ==> ip[k] == if k < |ownIP| then ownIP[k] else 0
  }

  lemma {:induction false} HostsUpToListsEachOnce(ownIP: IP, last: nat)
    requires last <= 254
    ensures Distinct(HostsUpTo(ownIP, last))
    ensures forall ip :: ip in HostsUpTo(ownIP, last) <==> IsOtherHost(ownIP, ip, last)
  {
    if last == 0 {
    } else {
      HostsUpToListsEachOnce(ownIP, last - 1);
      var before, next := HostsUpTo(ownIP, last - 1), HostAddress(ownIP, last as Byte);
      assert next !in before;
      forall ip
        ensures ip in HostsUpTo(ownIP, last) <==> IsOtherHost(ownIP, ip, last)
      {
        assert ip in before + [next] <==> ip in before || ip == next;
      }
    }
  }

  lemma PermutationKeepsDistinct(s: seq<IP>, t: seq<IP>)
    requires Permutation(s, t) && Distinct(s)
    ensures Distinct(t)
    ensures forall x :: x in t <==> x in s
  {
    forall x
      ensures x in t <==> x in s
    {
      assert x in multiset(t) <==> x in multiset(s);
    }
    forall a, b | 0 <= a < b < |t|
      ensures t[a] != t[b]
    {
      DistinctCountsOnce(s, t[b]);
      assert t == t[..b] + [t[b]] + t[b + 1..];
      assert multiset(t) == multiset(t[..b]) + multiset{t[b]} + multiset(t[b + 1..]);
      assert t[a] in t[..b];
    }
  }

  lemma {:induction false} DistinctCountsOnce<T(!new)>(s: seq<T>, x: T)
    requires Distinct(s)
    ensures multiset(s)[x] <= 1
  {
    if s == [] {
    } else {
      DistinctCountsOnce(s[1..], x);
      assert s == [s[0]] + s[1..];
      assert s[0] == x ==> x !in s[1..];
    }
  }

  method RandAvailableIPs(ownIP: IP, src: RandomSource) returns (r: Result<seq<IP>, ReadError>)
    modifies src
    ensures
      var hosts := HostsUpTo(ownIP, 254);
      var run := ShuffleFrom(hosts, |hosts| - 1, old(src.stream));
      r == (if run.complete then Success(run.order) else Failure(ReadError)) && src.stream == run.rest
    ensures r.Success? ==> Distinct(r.value) && forall ip :: ip in r.value <==> IsOtherHost(ownIP, ip, 254)
  {
    var entries: seq<IP> := [];
    for i := 1 to 255
      invariant entries == HostsUpTo(ownIP, i - 1)
    {
      var eip := HostAddress(ownIP, i as Byte);
      if eip != ownIP {
        entries := entries + [eip];
      }
    }
    HostsUpToListsEachOnce(ownIP, 254);
    var a := new IP[|entries|](k requires 0 <= k < |entries| => entries[k]);
    assert a[..] == entries;
    var err := RandShuffle(a, src);
    if err.Some? {
      return Failure(ReadError);
    }
    RunIsShuffled(entries, |entries| - 1, old(src.stream));
    ShuffledIsPermutation(entries, |entries| - 1, DrawChoices(old(src.stream), |entries| - 1));
    PermutationKeepsDistinct(entries, a[..]);
    return Success(a[..]);
  }
}
