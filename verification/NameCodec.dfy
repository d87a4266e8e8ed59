/**
  * The DNS name codec: length-prefixed labels (section 3.1 of RFC 1035) with compression pointers
  * (section 4.1.4 of RFC 1035) on the decoding side.
  */
module NameCodec {
  import opened Bits
  import opened Labels

  const DOT: Byte := 46

  /** A length byte with its top two bits set introduces a pointer. */
  const INDIRECT: nat := 0xC0

  // ----- Encoding

  function LabelBytes(parts: seq<seq<Byte>>): seq<Byte> {
    if parts == [] then []
    else [(|parts[0]| % 256) as Byte] + parts[0] + LabelBytes(parts[1..])
  }

  function Encode(name: seq<Byte>): seq<Byte> {
    LabelBytes(Split(name, DOT)) + [0]
  }

  lemma {:induction false} LabelBytesSnoc(parts: seq<seq<Byte>>, part: seq<Byte>)
    ensures LabelBytes(parts + [part]) == LabelBytes(parts) + [(|part| % 256) as Byte] + part
  {
    if parts == [] {
      assert [part][1..] == [];
    } else {
      assert (parts + [part])[1..] == parts[1..] + [part];
      LabelBytesSnoc(parts[1..], part);
    }
  }

  method DnsQueryEncode(name: seq<Byte>) returns (ret: array<Byte>)
    ensures fresh(ret) && ret[..] == Encode(name)
  {
    var tmp := Split(name, DOT);
    var l := 0;
    for k := 0 to |tmp|
      invariant l == |LabelBytes(tmp[..k])|
    {
      NextLabel(tmp, k);
      l := l + 1 + |tmp[k]|;
    }
    assert tmp[..|tmp|] == tmp;
    l := l + 1;
    ret := new Byte[l](_ => 0);
    var i := 0;
    for k := 0 to |tmp|
      invariant i == |LabelBytes(tmp[..k])| < l
      invariant ret[..i] == LabelBytes(tmp[..k])
    {
      NextLabel(tmp, k);
      ret[i] := (|tmp[k]| % 256) as Byte;
      i := i + 1;
      Copy(ret, i, tmp[k]);
      i := i + |tmp[k]|;
    }
    ret[i] := 0;
  }

  lemma NextLabel(parts: seq<seq<Byte>>, k: nat)
    requires k < |parts|
    ensures LabelBytes(parts[..k + 1]) == LabelBytes(parts[..k]) + [(|parts[k]| % 256) as Byte] + parts[k]
    ensures |LabelBytes(parts[..k + 1])| <= |LabelBytes(parts)|
  {
    assert parts[..k + 1] == parts[..k] + [parts[k]];
    LabelBytesSnoc(parts[..k], parts[k]);
    LabelBytesPrefix(parts, k + 1);
  }

  lemma {:induction false} LabelBytesPrefix(parts: seq<seq<Byte>>, k: nat)
    requires k <= |parts|
    ensures |LabelBytes(parts[..k])| <= |LabelBytes(parts)|
  {
    if k == 0 {
    } else {
      assert parts[..k][1..] == parts[1..][..k - 1];
      LabelBytesPrefix(parts[1..], k - 1);
    }
  }

  /** `copy(a[at:], bytes)` with room for all of them. */
  method Copy(a: array<Byte>, at: nat, bytes: seq<Byte>)
    requires at + |bytes| <= a.Length
    modifies a
    ensures a[..] == old(a[..at]) + bytes + old(a[at + |bytes|..])
  {
    for k := 0 to |bytes|
      invariant a[..] == old(a[..at]) + bytes[..k] + old(a[at + k..])
    {
      a[at + k] := bytes[k];
    }
  }

  // ----- Decoding

  /** The name read and the bytes consumed, or no name and -1. */
  datatype Decoded = Decoded(name: seq<Byte>, read: int)

  const BAD: Decoded := Decoded([], -1)

  /** The 14-bit target of the pointer at `pos`. */
  function Target(data: seq<Byte>, pos: nat): nat
    requires pos + 1 < |data|
  {
    (data[pos] as nat * 256 + data[pos + 1] as nat) % 0x4000
  }

  /** From `pos`, with `toread` bytes of a label still to come, the name ends after at most `hops`
    * pointers, all of them complete. */
  predicate Ends(data: seq<Byte>, pos: nat, toread: nat, hops: nat)
    decreases hops, |data| - pos
  {
    if pos >= |data| || data[pos] == 0 then true
    else if toread > 0 then Ends(data, pos + 1, toread - 1, hops)
    else if data[pos] as nat >= INDIRECT then
      pos + 1 < |data| && hops > 0 && Ends(data, Target(data, pos), 0, hops - 1)
    else Ends(data, pos + 1, data[pos] as nat, hops)
  }

  /** Decoding the name at `start` ends, inside the buffer. */
  ghost predicate SafeName(data: seq<Byte>, start: nat) {
    exists hops :: Ends(data, start, 0, hops)
  }

  /** The fewest pointers that are enough. */
  ghost function Hops(data: seq<Byte>, start: nat): (hops: nat)
    requires SafeName(data, start)
    ensures Ends(data, start, 0, hops) && forall h :: Ends(data, start, 0, h) ==> hops <= h
  {
    var hops :| Ends(data, start, 0, hops);
    LeastHops(data, start, hops)
  }

  ghost function LeastHops(data: seq<Byte>, start: nat, hops: nat): (least: nat)
    requires Ends(data, start, 0, hops)
    ensures Ends(data, start, 0, least) && forall h :: Ends(data, start, 0, h) ==> least <= h
  {
    if hops > 0 && Ends(data, start, 0, hops - 1) then LeastHops(data, start, hops - 1)
    else
      NoFewerHops(data, start, hops);
      hops
  }

  lemma NoFewerHops(data: seq<Byte>, start: nat, hops: nat)
    requires hops == 0 || !Ends(data, start, 0, hops - 1)
    ensures forall h :: Ends(data, start, 0, h) ==> hops <= h
  {
    forall h: nat | h < hops
      ensures !Ends(data, start, 0, h)
    {
      if Ends(data, start, 0, h) {
        MoreHops(data, start, 0, h, hops - 1);
      }
    }
  }

  lemma {:induction false} MoreHops(data: seq<Byte>, pos: nat, toread: nat, hops: nat, more: nat)
    requires Ends(data, pos, toread, hops) && hops <= more
    ensures Ends(data, pos, toread, more)
    decreases hops, |data| - pos
  {
    if pos < |data| && data[pos] != 0 {
      if toread > 0 {
        MoreHops(data, pos + 1, toread - 1, hops, more);
      } else if data[pos] as nat >= INDIRECT {
        MoreHops(data, Target(data, pos), 0, hops - 1, more - 1);
      } else {
        MoreHops(data, pos + 1, data[pos] as nat, hops, more);
      }
    }
  }

  function Separated(read: seq<Byte>): seq<Byte> {
    if read == [] then [] else read + [DOT]
  }

  /** What decoding gives from `pos`, with `toread` bytes of the current label still to come. */
  function Scan(data: seq<Byte>, start: nat, pos: nat, toread: nat, read: seq<Byte>, hops: nat): Decoded
    requires Ends(data, pos, toread, hops)
    decreases hops, |data| - pos
  {
    if pos >= |data| then BAD
    else if data[pos] == 0 then
      if toread > 0 then BAD else Decoded(read, pos + 1 - start)
    else if toread > 0 then Scan(data, start, pos + 1, toread - 1, read + [data[pos]], hops)
    else if data[pos] as nat >= INDIRECT then
      var sub := Scan(data, Target(data, pos), Target(data, pos), 0, [], hops - 1);
      if sub.read <= 0 then BAD else Decoded(Separated(read) + sub.name, pos + 2 - start)
    else Scan(data, start, pos + 1, data[pos] as nat, Separated(read), hops)
  }

  ghost function Decode(data: seq<Byte>, start: nat): Decoded
    requires SafeName(data, start)
  {
    Scan(data, start, start, 0, [], Hops(data, start))
  }

  /** The pointers allowed for do not show in what is read. */
  lemma {:induction false} AnyHops(data: seq<Byte>, start: nat, pos: nat, toread: nat, read: seq<Byte>,
                                   hops: nat, more: nat)
    requires Ends(data, pos, toread, hops) && Ends(data, pos, toread, more) && hops <= more
    ensures Scan(data, start, pos, toread, read, hops) == Scan(data, start, pos, toread, read, more)
    decreases hops, |data| - pos
  {
    if pos < |data| && data[pos] != 0 {
      if toread > 0 {
        AnyHops(data, start, pos + 1, toread - 1, read + [data[pos]], hops, more);
      } else if data[pos] as nat >= INDIRECT {
        AnyHops(data, Target(data, pos), Target(data, pos), 0, [], hops - 1, more - 1);
      } else {
        AnyHops(data, start, pos + 1, data[pos] as nat, Separated(read), hops, more);
      }
    }
  }

  lemma DecodeIs(data: seq<Byte>, start: nat, hops: nat)
    requires Ends(data, start, 0, hops)
    ensures SafeName(data, start) && Decode(data, start) == Scan(data, start, start, 0, [], hops)
  {
    AnyHops(data, start, start, 0, [], Hops(data, start), hops);
  }

  method DnsQueryDecode(data: seq<Byte>, start: nat) returns (name: seq<Byte>, n: int)
    requires SafeName(data, start)
    ensures Decoded(name, n) == Decode(data, start)
    decreases Hops(data, start)
  {
    ghost var hops := Hops(data, start);
    var read: seq<Byte> := [];
    var toread := 0;
    var pos := start;
    while true
      invariant start <= pos && Ends(data, pos, toread, hops)
      invariant Scan(data, start, pos, toread, read, hops) == Decode(data, start)
      decreases |data| - pos
    {
      if pos >= |data| {
        return [], -1;
      }
      if data[pos] == 0 {
        if toread > 0 {
          return [], -1;
        }
        break;
      }
      if toread == 0 {
        var separated := read;
        if |read| > 0 {
          separated := read + [DOT];
        }
        if data[pos] as nat >= INDIRECT {
          DecodeIs(data, Target(data, pos), hops - 1);
          var substr, subread := DnsQueryDecode(data, Target(data, pos));
          pos := pos + 1;
          if subread <= 0 {
            return [], -1;
          }
          read := separated + substr;
          break;
        }
        toread := data[pos] as nat;
        read := separated;
      } else {
        read := read + [data[pos]];
        toread := toread - 1;
      }
      pos := pos + 1;
    }
    return read, pos + 1 - start;
  }
}
