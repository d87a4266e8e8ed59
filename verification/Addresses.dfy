/** Dotted-quad addresses and the range of fake addresses that starts at 10.0.0.1. */
module Addresses {
  import opened Wrappers
  import opened Labels

  const DOT: char := '.'

  const WORD32: nat := 0x1_0000_0000

  /** 10.0.0.1 */
  const FIRST_IP: nat := 0x0A00_0001

  const MAX_VALUE: nat := 65535

  newtype Offset = n: int | 0 <= n <= MAX_VALUE

  // ----- Decimal numbers

  predicate IsDigit(c: char) {
    '0' <= c <= '9'
  }

  predicate AllDigits(s: string) {
    forall i :: 0 <= i < |s| ==> IsDigit(s[i])
  }

  function Digit(n: nat): char
    requires n < 10
  {
    '0' + n as char
  }

  function Decimal(n: nat): (s: string)
    ensures s != ""
  {
    if n < 10 then [Digit(n)] else Decimal(n / 10) + [Digit(n % 10)]
  }

  function Value(s: string): nat
    requires AllDigits(s)
  {
    if s == "" then 0 else 10 * Value(s[..|s| - 1]) + (s[|s| - 1] - '0') as nat
  }

  lemma {:induction false} DecimalValue(n: nat)
    ensures AllDigits(Decimal(n)) && Value(Decimal(n)) == n
    ensures |Decimal(n)| > 1 ==> Decimal(n)[0] != '0'
    ensures n > 0 ==> Decimal(n)[0] != '0'
    ensures ':' !in Decimal(n) && DOT !in Decimal(n)
  {
    if n < 10 {
      assert [Digit(n)][..0] == "";
    } else {
      DecimalValue(n / 10);
      assert Decimal(n)[..|Decimal(n)| - 1] == Decimal(n / 10);
    }
  }

  lemma DecimalInjective(m: nat, n: nat)
    requires Decimal(m) == Decimal(n)
    ensures m == n
  {
    DecimalValue(m);
    DecimalValue(n);
  }

  // ----- Dotted quads

  function ParseOctet(s: string): Option<nat> {
    if s == "" || !AllDigits(s) || (|s| > 1 && s[0] == '0') || Value(s) > 255 then None else Some(Value(s))
  }

  function ParseQuad(parts: seq<string>): Option<nat> {
    if |parts| != 4 then None
    else
      var (a, b, c, d) := (ParseOctet(parts[0]), ParseOctet(parts[1]), ParseOctet(parts[2]), ParseOctet(parts[3]));
      if a.None? || b.None? || c.None? || d.None? then None
      else Some(((a.value * 256 + b.value) * 256 + c.value) * 256 + d.value)
  }

  /** The four-part textual form; anything else is an error. */
  function ParseIPv4(s: string): Option<nat> {
    ParseQuad(Split(s, DOT))
  }

  /** The number of an address, 0 when it does not parse and the error is ignored. */
  function IP4ToInt(s: string): nat {
    var n := ParseIPv4(s);
    if n.Some? then n.value else 0
  }

  function IntToIP4(n: nat): string
    requires n < WORD32
  {
    Join([Decimal(n / 0x100_0000), Decimal(n / 0x1_0000 % 256), Decimal(n / 0x100 % 256), Decimal(n % 256)], DOT)
  }

  function IP4FromOffset(offset: Offset): string {
    IntToIP4(FIRST_IP + offset as nat)
  }

  function OffsetFromIP4(ip: string): nat {
    var n := IP4ToInt(ip);
    if n > FIRST_IP then n - FIRST_IP else MAX_VALUE
  }

  lemma QuadOfWord(n: nat)
    requires n < WORD32
    ensures ((n / 0x100_0000 * 256 + n / 0x1_0000 % 256) * 256 + n / 0x100 % 256) * 256 + n % 256 == n
    ensures n / 0x100_0000 < 256
  {
  }

  lemma OctetRoundTrip(n: nat)
    requires n < 256
    ensures ParseOctet(Decimal(n)) == Some(n) && DOT !in Decimal(n)
  {
    DecimalValue(n);
  }

  lemma ParseJoined(p: string, q: string, r: string, s: string)
    requires ParseOctet(p).Some? && ParseOctet(q).Some? && ParseOctet(r).Some? && ParseOctet(s).Some?
    requires DOT !in p && DOT !in q && DOT !in r && DOT !in s
    ensures ParseIPv4(Join([p, q, r, s], DOT))
         == Some(((ParseOctet(p).value * 256 + ParseOctet(q).value) * 256 + ParseOctet(r).value) * 256
                 + ParseOctet(s).value)
  {
    var parts := [p, q, r, s];
    assert Free(parts, DOT);
    SplitJoin(parts, DOT);
  }

  lemma AddressRoundTrip(n: nat)
    requires n < WORD32
    ensures ParseIPv4(IntToIP4(n)) == Some(n)
  {
    QuadOfWord(n);
    var (a, b, c, d) := (n / 0x100_0000, n / 0x1_0000 % 256, n / 0x100 % 256, n % 256);
    OctetRoundTrip(a);
    OctetRoundTrip(b);
    OctetRoundTrip(c);
    OctetRoundTrip(d);
    ParseJoined(Decimal(a), Decimal(b), Decimal(c), Decimal(d));
  }

  lemma WordsDistinct(m: nat, n: nat)
    requires m < WORD32 && n < WORD32 && IntToIP4(m) == IntToIP4(n)
    ensures m == n
  {
    AddressRoundTrip(m);
    AddressRoundTrip(n);
    assert Some(m) == Some(n);
  }

  /** Reading an offset back from its address; 10.0.0.1 itself reads back as the last offset. */
  lemma OffsetRoundTrip(o: Offset)
    ensures OffsetFromIP4(IP4FromOffset(o)) == if o == 0 then 65535 else o as nat
  {
    AddressRoundTrip(FIRST_IP + o as nat);
  }

  lemma AddressesDistinct(o: Offset, p: Offset)
    requires IP4FromOffset(o) == IP4FromOffset(p)
    ensures o == p
  {
    WordsDistinct(FIRST_IP + o as nat, FIRST_IP + p as nat);
  }

  lemma AddressNotEmpty(o: Offset)
    ensures IP4FromOffset(o) != ""
  {
    AddressRoundTrip(FIRST_IP + o as nat);
    assert |Split("", DOT)| == 1;
  }

  // ----- The addresses themselves

  /** The text of the `n`-th address past 10.0.0.0. */
  function TenNet(n: nat): string {
    "10." + Decimal(n / 65536) + "." + Decimal(n / 256 % 256) + "." + Decimal(n % 256)
  }

  lemma JoinFour(p: string, q: string, r: string, s: string)
    ensures Join([p, q, r, s], DOT) == p + "." + q + "." + r + "." + s
  {
    assert [p, q, r, s][1..] == [q, r, s] && [q, r, s][1..] == [r, s] && [r, s][1..] == [s];
    assert Join([r, s], DOT) == r + "." + s;
    assert Join([q, r, s], DOT) == q + "." + (r + "." + s);
    assert p + "." + (q + "." + (r + "." + s)) == p + "." + q + "." + r + "." + s;
  }

  lemma TenNetOctets(n: nat)
    requires n <= 65536
    ensures
      var w := 0x0A00_0000 + n;
      w / 0x100_0000 == 10 && w / 0x1_0000 % 256 == n / 65536 && w / 0x100 % 256 == n / 256 % 256 && w % 256 == n % 256
  {
    var w := 0x0A00_0000 + n;
    assert w / 0x1_0000 == 0xA00 + n / 65536;
    assert w / 0x100 == 0xA_0000 + n / 256;
  }

  lemma TenNetText(n: nat)
    requires n <= 65536
    ensures IntToIP4(0x0A00_0000 + n) == TenNet(n)
  {
    TenNetOctets(n);
    JoinFour(Decimal(10), Decimal(n / 65536), Decimal(n / 256 % 256), Decimal(n % 256));
    assert Decimal(10) == "10";
  }

  /** Offsets 0 to 65535 stand for 10.0.0.1 to 10.1.0.0, in order. */
  lemma AddressText(o: Offset)
    ensures IP4FromOffset(o) == TenNet(o as nat + 1)
  {
    TenNetText(o as nat + 1);
  }

  lemma TenNetEnds()
    ensures TenNet(1) == "10.0.0.1" && TenNet(65536) == "10.1.0.0"
  {
  }

  /** What any number reads back as: how far past 10.0.0.1, and 65535 for that one and all below. */
  lemma OffsetOfWord(n: nat)
    requires n < 0x1_0000_0000
    ensures OffsetFromIP4(IntToIP4(n)) == if n > 0x0A00_0001 then n - 0x0A00_0001 else 65535
  {
    AddressRoundTrip(n);
  }
}
