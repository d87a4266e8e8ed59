/**
  * The key-value store: a finite map whose keys are visited in order, and the layouts of the keys
  * of DNS sessions and reverse records.
  */
module KeyStore {
  import opened Addresses
  import opened Records

  // ----- Visiting keys in order

  predicate HasPrefix(key: string, prefix: string) {
    |prefix| <= |key| && key[..|prefix|] == prefix
  }

  predicate KeyLess(a: string, b: string) {
    if b == "" then false
    else if a == "" then true
    else a[0] < b[0] || (a[0] == b[0] && KeyLess(a[1..], b[1..]))
  }

  lemma {:induction false} KeyLessTotal(a: string, b: string)
    ensures a == b || KeyLess(a, b) || KeyLess(b, a)
    ensures !(KeyLess(a, b) && KeyLess(b, a)) && !KeyLess(a, a)
  {
    if a != "" && b != "" {
      KeyLessTotal(a[1..], b[1..]);
      if a[0] == b[0] && a[1..] == b[1..] {
        assert a == [a[0]] + a[1..] && b == [b[0]] + b[1..];
      }
    }
    if a != "" {
      KeyLessTotal(a[1..], a[1..]);
    }
  }

  lemma {:induction false} KeyLessTransitive(a: string, b: string, c: string)
    requires KeyLess(a, b) && KeyLess(b, c)
    ensures KeyLess(a, c)
  {
    if a != "" && a[0] == b[0] == c[0] {
      KeyLessTransitive(a[1..], b[1..], c[1..]);
    }
  }

  /** Keys are in dictionary order: by the first character in which they differ, and a key comes before
    * its extensions. */
  lemma {:induction false} KeyOrder(same: string, a: char, b: char, x: string, y: string)
    ensures a < b ==> KeyLess(same + [a] + x, same + [b] + y)
    ensures KeyLess(same, same + [a] + x)
  {
    if same == "" {
      assert [a] + x == same + [a] + x;
    } else {
      KeyOrder(same[1..], a, b, x, y);
      assert (same + [a] + x)[1..] == same[1..] + [a] + x;
      assert (same + [b] + y)[1..] == same[1..] + [b] + y;
    }
  }

  predicate IsLeast(keys: set<string>, k: string) {
    k in keys && forall x :: x in keys && x != k ==> KeyLess(k, x)
  }

  lemma {:induction false} LeastExists(keys: set<string>) returns (k: string)
    requires keys != {}
    ensures IsLeast(keys, k)
  {
    var y :| y in keys;
    if keys <= {y} {
      k := y;
    } else {
      var z := LeastExists(keys - {y});
      KeyLessTotal(y, z);
      k := if KeyLess(y, z) then y else z;
      forall x | x in keys && x != k
        ensures KeyLess(k, x)
      {
        if k == y && x != z {
          KeyLessTransitive(y, z, x);
        }
      }
    }
  }

  lemma OneLeast(keys: set<string>)
    requires keys != {}
    ensures exists k :: IsLeast(keys, k)
    ensures forall j, k :: IsLeast(keys, j) && IsLeast(keys, k) ==> j == k
  {
    var least := LeastExists(keys);
    forall j, k | IsLeast(keys, j) && IsLeast(keys, k)
      ensures j == k
    {
      KeyLessTotal(j, k);
    }
  }

  /** The keys of a set, each once, in increasing order. */
  function InOrder(keys: set<string>): (s: seq<string>)
    ensures forall k :: k in s <==> k in keys
    ensures forall i, j :: 0 <= i < j < |s| ==> s[i] != s[j]
  {
    if keys == {} then []
    else
      OneLeast(keys);
      var k :| k in keys && IsLeast(keys, k);
      [k] + InOrder(keys - {k})
  }

  lemma {:induction false} InOrderIncreases(keys: set<string>)
    ensures forall i, j :: 0 <= i < j < |InOrder(keys)| ==> KeyLess(InOrder(keys)[i], InOrder(keys)[j])
    decreases |keys|
  {
    if keys == {} {
    } else {
      var s := InOrder(keys);
      InOrderIncreases(keys - {s[0]});
      assert s[1..] == InOrder(keys - {s[0]});
      forall j | 0 < j < |s|
        ensures KeyLess(s[0], s[j])
      {
        assert s[j] in keys;
      }
    }
  }

  /** The records under keys with a prefix, in key order. */
  function GetAll<V>(store: map<string, V>, prefix: string): seq<V> {
    var keys := InOrder(set k | k in store && HasPrefix(k, prefix));
    seq(|keys|, i requires 0 <= i < |keys| => assert keys[i] in keys; store[keys[i]])
  }

  // ----- Key layouts

  const SESSIONS: string := "dns:"

  function SessionKey(clientIP: string, hostname: string, qtype: nat): string {
    SessionPrefix(clientIP) + Decimal(qtype) + ":" + hostname
  }

  function SessionPrefix(clientIP: string): string {
    "dns:" + clientIP + ":"
  }

  function KeyOf(s: DNSSession): string {
    SessionKey(s.clientIP, s.hostname, s.qtype)
  }

  function ReverseKey(clientIP: string, qtype: nat, offset: Offset): string {
    ReversePrefix(clientIP, qtype) + ":" + Decimal(offset as nat)
  }

  function ReversePrefix(clientIP: string, qtype: nat): string {
    "rev:" + clientIP + ":" + Decimal(qtype)
  }

  /** A client address as the server cuts it from the source of a query: up to the first colon. */
  predicate IsClient(clientIP: string) {
    ':' !in clientIP
  }

  lemma LastColon(x: string, d: string, x': string, d': string)
    requires ':' !in d && ':' !in d' && x + ":" + d == x' + ":" + d'
    ensures x == x' && d == d'
  {
    var s, s' := x + ":" + d, x' + ":" + d';
    assert s[|x|] == ':' && s'[|x'|] == ':';
    assert forall i :: |x| < i < |s| ==> s[i] == d[i - |x| - 1];
    assert forall i :: |x'| < i < |s'| ==> s'[i] == d'[i - |x'| - 1];
    assert x == s[..|x|] && d == s[|x| + 1..];
    assert x' == s'[..|x'|] && d' == s'[|x'| + 1..];
  }

  lemma FirstColon(c: string, x: string, c': string, x': string)
    requires IsClient(c) && IsClient(c') && HasPrefix(c' + ":" + x', c + ":" + x)
    ensures c == c'
  {
    var s, s' := c + ":" + x, c' + ":" + x';
    assert s == s'[..|s|];
    assert s[|c|] == ':' && s'[|c'|] == ':';
    assert forall i :: 0 <= i < |c| ==> s[i] == c[i];
    assert forall i :: 0 <= i < |c'| ==> s'[i] == c'[i];
    assert |c'| < |s| ==> s[|c'|] == s'[|c'|];
    assert c == s[..|c|] && c' == s'[..|c'|];
  }

  /** A reverse key determines client, type and offset. */
  lemma ReverseKeyInjective(c: string, t: nat, o: Offset, c': string, t': nat, o': Offset)
    requires ReverseKey(c, t, o) == ReverseKey(c', t', o')
    ensures c == c' && t == t' && o == o'
  {
    DecimalValue(o as nat);
    DecimalValue(o' as nat);
    DecimalValue(t);
    DecimalValue(t');
    LastColon(ReversePrefix(c, t), Decimal(o as nat), ReversePrefix(c', t'), Decimal(o' as nat));
    LastColon("rev:" + c, Decimal(t), "rev:" + c', Decimal(t'));
    assert ("rev:" + c)[4..] == c && ("rev:" + c')[4..] == c';
    DecimalInjective(t, t');
    DecimalInjective(o as nat, o' as nat);
  }

  /** The prefix query for a client and type returns records of that client only. */
  lemma ReversePrefixClient(c: string, t: nat, c': string, t': nat, o': Offset)
    requires IsClient(c) && IsClient(c') && HasPrefix(ReverseKey(c', t', o'), ReversePrefix(c, t))
    ensures c == c'
  {
    var x' := Decimal(t') + ":" + Decimal(o' as nat);
    assert ReverseKey(c', t', o') == "rev:" + (c' + ":" + x');
    assert ReversePrefix(c, t) == "rev:" + (c + ":" + Decimal(t));
    TailPrefix("rev:", c + ":" + Decimal(t), c' + ":" + x');
    FirstColon(c, Decimal(t), c', x');
  }

  lemma PrefixAfter(head: string, a: string, b: string)
    ensures HasPrefix(head + b, head + a) <==> HasPrefix(b, a)
  {
    if HasPrefix(b, a) {
      assert head + b == (head + a) + b[|a|..];
    }
    if HasPrefix(head + b, head + a) {
      TailPrefix(head, a, b);
    }
  }

  lemma PrefixBeforeColon(d: string, d': string, rest: string)
    requires rest != "" && rest[0] == ':' && AllDigits(d)
    ensures HasPrefix(d' + rest, d) <==> HasPrefix(d', d)
  {
    if |d| <= |d'| {
      assert (d' + rest)[..|d|] == d'[..|d|];
    } else {
      assert d[|d'|] != ':' && (d' + rest)[|d'|] == ':';
    }
  }

  lemma PrefixOfType(c: string, t: nat, t': nat, o: Offset)
    ensures HasPrefix(ReverseKey(c, t', o), ReversePrefix(c, t)) <==> HasPrefix(Decimal(t'), Decimal(t))
  {
    var head, rest := "rev:" + c + ":", ":" + Decimal(o as nat);
    DecimalValue(t);
    assert ReversePrefix(c, t) == head + Decimal(t);
    assert ReverseKey(c, t', o) == head + (Decimal(t') + rest);
    PrefixAfter(head, Decimal(t), Decimal(t') + rest);
    PrefixBeforeColon(Decimal(t), Decimal(t'), rest);
  }

  /** Which records it returns: those of the types whose decimal digits start with the type's. */
  lemma ReversePrefixTypes(c: string, t: nat, c': string, t': nat, o': Offset)
    requires IsClient(c) && IsClient(c')
    ensures HasPrefix(ReverseKey(c', t', o'), ReversePrefix(c, t)) <==> c == c' && HasPrefix(Decimal(t'), Decimal(t))
  {
    if HasPrefix(ReverseKey(c', t', o'), ReversePrefix(c, t)) {
      ReversePrefixClient(c, t, c', t', o');
    }
    if c == c' {
      PrefixOfType(c, t, t', o');
    }
  }

  /** The type-1 query also returns the records of type 16. */
  lemma PrefixReturnsOtherTypes(c: string, o: Offset)
    ensures HasPrefix(ReverseKey(c, 16, o), ReversePrefix(c, 1))
  {
    assert Decimal(16) == "16" && Decimal(1) == "1";
    assert ReverseKey(c, 16, o) == ReversePrefix(c, 1) + ("6:" + Decimal(o as nat));
  }

  lemma KeyTexts(c: string, h: string, o: Offset)
    ensures SessionKey(c, h, 28) == "dns:" + c + ":28:" + h
    ensures ReverseKey(c, 28, o) == "rev:" + c + ":28:" + Decimal(o as nat)
  {
    assert Decimal(28) == "28";
  }

  lemma TailPrefix(head: string, a: string, b: string)
    requires HasPrefix(head + b, head + a)
    ensures HasPrefix(b, a)
  {
    assert a == (head + a)[|head|..];
    assert b[..|a|] == (head + b)[..|head + a|][|head|..];
  }

  lemma ReverseKeyHasPrefix(c: string, t: nat, o: Offset)
    ensures HasPrefix(ReverseKey(c, t, o), ReversePrefix(c, t))
  {
  }

  /** The prefix query for a client's sessions returns sessions of that client only. */
  lemma SessionPrefixClient(c: string, s: DNSSession)
    requires IsClient(c) && IsClient(s.clientIP)
    ensures HasPrefix(KeyOf(s), SessionPrefix(c)) <==> s.clientIP == c
  {
    var x' := Decimal(s.qtype) + ":" + s.hostname;
    assert KeyOf(s) == "dns:" + (s.clientIP + ":" + x');
    assert SessionPrefix(c) == "dns:" + (c + ":" + "");
    if HasPrefix(KeyOf(s), SessionPrefix(c)) {
      TailPrefix("dns:", c + ":" + "", s.clientIP + ":" + x');
      FirstColon(c, "", s.clientIP, x');
    } else {
      assert KeyOf(s) == SessionPrefix(s.clientIP) + x';
    }
  }

  /** With a colon in it, the query selects by type too: the sessions of another client. */
  lemma SessionPrefixType(s: DNSSession)
    ensures HasPrefix(KeyOf(s), SessionPrefix(s.clientIP + ":" + Decimal(s.qtype)))
    ensures s.clientIP != s.clientIP + ":" + Decimal(s.qtype)
  {
    assert KeyOf(s) == SessionPrefix(s.clientIP + ":" + Decimal(s.qtype)) + s.hostname;
  }

  lemma SessionKeyHasPrefix(s: DNSSession)
    ensures HasPrefix(KeyOf(s), SESSIONS)
  {
  }
}
