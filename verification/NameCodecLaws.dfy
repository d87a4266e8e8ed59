/** Round trips, compression and the exact domain of the DNS name codec. */
module NameCodecLaws {
  import opened Wrappers
  import opened Bits
  import opened Labels
  import opened NameCodec

  /** Labels the codec carries: shorter than a pointer byte, not empty, without NUL. Labels of 1 to
    * 63 bytes (section 2.3.4 of RFC 1035) are among them. */
  predicate CarriedLabel(part: seq<Byte>) {
    1 <= |part| < INDIRECT && 0 !in part
  }

  predicate CarriedLabels(parts: seq<seq<Byte>>) {
    forall i :: 0 <= i < |parts| ==> CarriedLabel(parts[i])
  }

  /** `name` after what has been read so far. */
  function Append(read: seq<Byte>, name: seq<Byte>): seq<Byte> {
    Separated(read) + name
  }

  predicate At(data: seq<Byte>, pos: nat, bytes: seq<Byte>) {
    pos + |bytes| <= |data| && data[pos..pos + |bytes|] == bytes
  }

  lemma AtSplit(data: seq<Byte>, pos: nat, a: seq<Byte>, b: seq<Byte>)
    requires At(data, pos, a + b)
    ensures At(data, pos, a) && At(data, pos + |a|, b)
  {
    var whole := data[pos..pos + |a + b|];
    assert data[pos..pos + |a|] == whole[..|a|] == a;
    assert data[pos + |a|..pos + |a| + |b|] == whole[|a|..] == b;
  }

  lemma HeadAt(data: seq<Byte>, pos: nat, w: seq<Byte>)
    requires At(data, pos, w) && w != []
    ensures data[pos] == w[0] && At(data, pos + 1, w[1..])
    ensures 0 in w <==> w[0] == 0 || 0 in w[1..]
  {
    assert w == [w[0]] + w[1..];
    AtSplit(data, pos, [w[0]], w[1..]);
    assert data[pos] == data[pos..pos + 1][0];
  }

  // ----- One label, then many

  /** Inside a label the decoder copies bytes, unless it meets a NUL. */
  lemma {:induction false} ScanInLabel(data: seq<Byte>, start: nat, pos: nat, w: seq<Byte>, more: nat,
                                       read: seq<Byte>, hops: nat)
    requires At(data, pos, w) && 0 !in w
    ensures Ends(data, pos, |w| + more, hops) == Ends(data, pos + |w|, more, hops)
    ensures Ends(data, pos, |w| + more, hops) ==>
              Scan(data, start, pos, |w| + more, read, hops) == Scan(data, start, pos + |w|, more, read + w, hops)
    decreases |w|
  {
    if w == [] {
      assert read + w == read;
    } else {
      HeadAt(data, pos, w);
      ScanInLabel(data, start, pos + 1, w[1..], more, read + [w[0]], hops);
      assert read + [w[0]] + w[1..] == read + w;
    }
  }

  /** What the decoder comes to from a place between labels, if it ends. */
  function From(data: seq<Byte>, start: nat, pos: nat, read: seq<Byte>, hops: nat): Option<Decoded> {
    if Ends(data, pos, 0, hops) then Some(Scan(data, start, pos, 0, read, hops)) else None
  }

  predicate LabelAt(data: seq<Byte>, pos: nat, part: seq<Byte>) {
    At(data, pos, [(|part| % 256) as Byte] + part)
  }

  lemma ScanLabel(data: seq<Byte>, start: nat, pos: nat, part: seq<Byte>, read: seq<Byte>, hops: nat)
    requires LabelAt(data, pos, part) && CarriedLabel(part)
    ensures From(data, start, pos, read, hops) == From(data, start, pos + 1 + |part|, Append(read, part), hops)
  {
    AtSplit(data, pos, [(|part| % 256) as Byte], part);
    assert data[pos] == data[pos..pos + 1][0] == |part| as Byte;
    ScanInLabel(data, start, pos + 1, part, 0, Separated(read), hops);
  }

  /** The labels stand one after the other from `pos` on. */
  predicate LabelsAt(data: seq<Byte>, pos: nat, parts: seq<seq<Byte>>)
    decreases |parts|
  {
    parts == [] || (LabelAt(data, pos, parts[0]) && LabelsAt(data, pos + 1 + |parts[0]|, parts[1..]))
  }

  lemma FirstLabel(data: seq<Byte>, pos: nat, parts: seq<seq<Byte>>)
    requires At(data, pos, LabelBytes(parts)) && parts != []
    ensures LabelAt(data, pos, parts[0])
    ensures At(data, pos + 1 + |parts[0]|, LabelBytes(parts[1..]))
    ensures |LabelBytes(parts)| == 1 + |parts[0]| + |LabelBytes(parts[1..])|
  {
    AtSplit(data, pos, [(|parts[0]| % 256) as Byte] + parts[0], LabelBytes(parts[1..]));
  }

  lemma {:induction false} LabelsStand(data: seq<Byte>, pos: nat, parts: seq<seq<Byte>>)
    requires At(data, pos, LabelBytes(parts))
    ensures LabelsAt(data, pos, parts)
    decreases |parts|
  {
    if parts == [] {
    } else {
      FirstLabel(data, pos, parts);
      LabelsStand(data, pos + 1 + |parts[0]|, parts[1..]);
    }
  }

  function EncodedLength(parts: seq<seq<Byte>>): nat {
    if parts == [] then 0 else 1 + |parts[0]| + EncodedLength(parts[1..])
  }

  lemma {:induction false} LabelBytesLength(parts: seq<seq<Byte>>)
    ensures |LabelBytes(parts)| == EncodedLength(parts)
  {
    if parts == [] {
    } else {
      LabelBytesLength(parts[1..]);
    }
  }

  function AppendAll(read: seq<Byte>, parts: seq<seq<Byte>>): seq<Byte>
    decreases |parts|
  {
    if parts == [] then read else AppendAll(Append(read, parts[0]), parts[1..])
  }

  /** Labels are read one after the other. */
  lemma {:induction false} ScanLabels(data: seq<Byte>, start: nat, pos: nat, parts: seq<seq<Byte>>, read: seq<Byte>,
                                      hops: nat)
    requires LabelsAt(data, pos, parts) && CarriedLabels(parts)
    ensures From(data, start, pos, read, hops)
         == From(data, start, pos + EncodedLength(parts), AppendAll(read, parts), hops)
    decreases |parts|
  {
    if parts == [] {
    } else {
      ScanLabel(data, start, pos, parts[0], read, hops);
      ScanLabels(data, start, pos + 1 + |parts[0]|, parts[1..], Append(read, parts[0]), hops);
    }
  }

  lemma AppendJoin(read: seq<Byte>, parts: seq<seq<Byte>>)
    requires |parts| > 1 && parts[0] != []
    ensures Append(Append(read, parts[0]), Join(parts[1..], DOT)) == Append(read, Join(parts, DOT))
  {
    var tail := Join(parts[1..], DOT);
    assert Separated(read) + parts[0] + [DOT] + tail == Separated(read) + (parts[0] + [DOT] + tail);
  }

  lemma {:induction false} AppendAllJoins(read: seq<Byte>, parts: seq<seq<Byte>>)
    requires parts != [] && CarriedLabels(parts)
    ensures AppendAll(read, parts) == Append(read, Join(parts, DOT))
    decreases |parts|
  {
    if |parts| > 1 {
      AppendAllJoins(Append(read, parts[0]), parts[1..]);
      AppendJoin(read, parts);
    }
  }

  // ----- Round trip and compression

  lemma AppendAllFromNothing(parts: seq<seq<Byte>>)
    requires CarriedLabels(parts)
    ensures AppendAll([], parts) == Join(parts, DOT)
  {
    if parts != [] {
      AppendAllJoins([], parts);
      assert Append([], Join(parts, DOT)) == Join(parts, DOT);
    }
  }

  lemma AfterParts(data: seq<Byte>, start: nat, parts: seq<seq<Byte>>, hops: nat)
    requires LabelsAt(data, start, parts) && CarriedLabels(parts)
    ensures From(data, start, start, [], hops)
         == From(data, start, start + |LabelBytes(parts)|, Join(parts, DOT), hops)
  {
    LabelBytesLength(parts);
    ScanLabels(data, start, start, parts, [], hops);
    AppendAllFromNothing(parts);
  }

  /** From the start of a name, its labels bring the decoder to what follows them. */
  lemma AfterLabels(data: seq<Byte>, start: nat, parts: seq<seq<Byte>>, rest: seq<Byte>, hops: nat)
    requires At(data, start, LabelBytes(parts) + rest) && CarriedLabels(parts)
    ensures
      var end := start + |LabelBytes(parts)|;
      At(data, end, rest) && From(data, start, start, [], hops) == From(data, start, end, Join(parts, DOT), hops)
  {
    AtSplit(data, start, LabelBytes(parts), rest);
    LabelsStand(data, start, parts);
    AfterParts(data, start, parts, hops);
  }

  /** A NUL ends the name. */
  lemma ScanEnd(data: seq<Byte>, start: nat, end: nat, read: seq<Byte>, hops: nat)
    requires At(data, end, [0])
    ensures Ends(data, end, 0, hops)
    ensures Scan(data, start, end, 0, read, hops) == Decoded(read, end + 1 - start)
  {
    assert data[end] == data[end..end + 1][0] == 0;
  }

  /** An encoding at `start` decodes to its name and its length, whatever surrounds it. */
  lemma RoundTripAt(data: seq<Byte>, start: nat, name: seq<Byte>)
    requires At(data, start, Encode(name)) && CarriedLabels(Split(name, DOT))
    ensures SafeName(data, start) && Decode(data, start) == Decoded(name, |Encode(name)|)
  {
    var parts := Split(name, DOT);
    AfterLabels(data, start, parts, [0], 0);
    JoinSplit(name, DOT);
    ScanEnd(data, start, start + |LabelBytes(parts)|, name, 0);
    DecodeIs(data, start, 0);
  }

  lemma RoundTrip(before: seq<Byte>, name: seq<Byte>, after: seq<Byte>)
    requires CarriedLabels(Split(name, DOT))
    ensures
      var data := before + Encode(name) + after;
      SafeName(data, |before|) && Decode(data, |before|) == Decoded(name, |Encode(name)|)
  {
    var data := before + Encode(name) + after;
    assert At(data, |before|, Encode(name));
    RoundTripAt(data, |before|, name);
  }

  /** The wire format: a length byte and the bytes of each label between dots, and a zero at the end. */
  lemma EncodeOneLabel(part: seq<Byte>)
    requires 46 !in part
    ensures Encode(part) == [(|part| % 256) as Byte] + part + [0]
  {
    SplitOne(part, DOT);
    assert [part][1..] == [];
    var head := [(|part| % 256) as Byte] + part;
    assert LabelBytes([part]) == head + LabelBytes([]) == head;
    assert Encode(part) == LabelBytes([part]) + [0];
  }

  lemma EncodeNextLabel(part: seq<Byte>, rest: seq<Byte>)
    requires 46 !in part
    ensures Encode(part + [46] + rest) == [(|part| % 256) as Byte] + part + Encode(rest)
  {
    SplitFirst(part, rest, DOT);
    var parts := [part] + Split(rest, DOT);
    assert part + [46] + rest == part + [DOT] + rest;
    assert Split(part + [46] + rest, DOT) == parts && parts[0] == part && parts[1..] == Split(rest, DOT);
    var head, tail := [(|part| % 256) as Byte] + part, LabelBytes(Split(rest, DOT));
    assert LabelBytes(parts) == head + tail;
    assert head + tail + [0] == head + (tail + [0]);
  }

  /** A name built from its labels, as a caller has them. */
  lemma RoundTripLabels(before: seq<Byte>, parts: seq<seq<Byte>>, after: seq<Byte>)
    requires parts != [] && CarriedLabels(parts) && Free(parts, 46)
    ensures
      var name := Join(parts, 46);
      var data := before + Encode(name) + after;
      SafeName(data, |before|) && Decode(data, |before|) == Decoded(name, |LabelBytes(parts)| + 1)
  {
    SplitJoin(parts, DOT);
    RoundTrip(before, Join(parts, DOT), after);
  }

  function PointerTo(p: nat): seq<Byte>
    requires p < 0x4000
  {
    [(0xC0 + p / 256) as Byte, (p % 256) as Byte]
  }

  /** A pointer ends the name with the one it points at, if that ends. */
  lemma ScanPointer(data: seq<Byte>, start: nat, end: nat, read: seq<Byte>, p: nat, hops: nat)
    requires p < 0x4000 && At(data, end, PointerTo(p))
    ensures Ends(data, end, 0, hops) <==> hops > 0 && Ends(data, p, 0, hops - 1)
    ensures Ends(data, end, 0, hops) ==> SafeName(data, p)
    ensures Ends(data, end, 0, hops) ==>
              Scan(data, start, end, 0, read, hops)
              == if Decode(data, p).read <= 0 then BAD
                 else Decoded(Append(read, Decode(data, p).name), end + 2 - start)
  {
    assert data[end] == data[end..end + 2][0] && data[end + 1] == data[end..end + 2][1];
    assert Target(data, end) == p;
    if Ends(data, end, 0, hops) {
      DecodeIs(data, p, hops - 1);
    }
  }

  lemma CompressedEnds(data: seq<Byte>, start: nat, parts: seq<seq<Byte>>, p: nat, hops: nat)
    requires CarriedLabels(parts) && p < 0x4000 && At(data, start, LabelBytes(parts) + PointerTo(p))
    ensures Ends(data, start, 0, hops) <==> hops > 0 && Ends(data, p, 0, hops - 1)
  {
    AfterLabels(data, start, parts, PointerTo(p), hops);
    ScanPointer(data, start, start + |LabelBytes(parts)|, [], p, hops);
  }

  lemma CompressedIsSafe(data: seq<Byte>, start: nat, parts: seq<seq<Byte>>, p: nat)
    requires CarriedLabels(parts) && p < 0x4000 && At(data, start, LabelBytes(parts) + PointerTo(p))
    ensures SafeName(data, start) <==> SafeName(data, p)
  {
    if SafeName(data, p) {
      CompressedEnds(data, start, parts, p, Hops(data, p) + 1);
    }
    if SafeName(data, start) {
      CompressedEnds(data, start, parts, p, Hops(data, start));
    }
  }

  /** Labels followed by a pointer, wherever it points: decoding ends exactly when decoding its target
    * does; it fails when that fails, and else appends the target's name and consumes two more bytes. */
  lemma CompressedName(data: seq<Byte>, start: nat, parts: seq<seq<Byte>>, p: nat)
    requires CarriedLabels(parts) && p < 0x4000 && At(data, start, LabelBytes(parts) + PointerTo(p))
    ensures SafeName(data, start) <==> SafeName(data, p)
    ensures SafeName(data, p) ==>
              var t := Decode(data, p);
              Decode(data, start) == if t.read <= 0 then BAD
                                     else Decoded(Append(Join(parts, DOT), t.name), |LabelBytes(parts)| + 2)
  {
    CompressedIsSafe(data, start, parts, p);
    if SafeName(data, p) {
      var hops := Hops(data, start);
      AfterLabels(data, start, parts, PointerTo(p), hops);
      ScanPointer(data, start, start + |LabelBytes(parts)|, Join(parts, DOT), p, hops);
    }
  }

  lemma JoinNotEmpty(parts: seq<seq<Byte>>)
    requires parts != [] && parts[0] != []
    ensures Join(parts, DOT) != []
  {
  }

  /** ... in particular a pointer to an encoding of `t`. */
  lemma CompressedEncoding(data: seq<Byte>, start: nat, parts: seq<seq<Byte>>, p: nat, t: seq<Byte>)
    requires CarriedLabels(parts) && p < 0x4000 && At(data, start, LabelBytes(parts) + PointerTo(p))
    requires At(data, p, Encode(t)) && CarriedLabels(Split(t, DOT))
    ensures SafeName(data, start)
    ensures Decode(data, start)
         == Decoded(if parts == [] then t else Join(parts, DOT) + [DOT] + t, |LabelBytes(parts)| + 2)
  {
    RoundTripAt(data, p, t);
    CompressedName(data, start, parts, p);
    if parts != [] {
      JoinNotEmpty(parts);
    }
  }

  // ----- What decoding can return

  /** Decoding fails, or consumes at least one byte, none past the end, and keeps what it read. */
  lemma {:induction false} ScanRange(data: seq<Byte>, start: nat, pos: nat, toread: nat, read: seq<Byte>, hops: nat)
    requires Ends(data, pos, toread, hops) && start <= pos
    ensures
      var d := Scan(data, start, pos, toread, read, hops);
      d == BAD || (pos + 1 - start <= d.read <= |data| - start && read <= d.name)
    decreases |data| - pos
  {
    if pos < |data| && data[pos] != 0 {
      if toread > 0 {
        ScanRange(data, start, pos + 1, toread - 1, read + [data[pos]], hops);
      } else if data[pos] as nat < INDIRECT {
        ScanRange(data, start, pos + 1, data[pos] as nat, Separated(read), hops);
      }
    }
  }

  lemma DecodeConsumes(data: seq<Byte>, start: nat)
    requires SafeName(data, start)
    ensures Decode(data, start) == BAD || 1 <= Decode(data, start).read <= |data| - start
  {
    ScanRange(data, start, start, 0, [], Hops(data, start));
  }

  // ----- The exact domain of the round trip

  /** A label with a NUL in it is not read through. */
  lemma {:induction false} ScanStopsAtNul(data: seq<Byte>, start: nat, pos: nat, w: seq<Byte>, more: nat,
      read: seq<Byte>, hops: nat)
    requires At(data, pos, w) && 0 in w && Ends(data, pos, |w| + more, hops)
    ensures Scan(data, start, pos, |w| + more, read, hops) == BAD
    decreases |w|
  {
    HeadAt(data, pos, w);
    if w[0] != 0 {
      ScanStopsAtNul(data, start, pos + 1, w[1..], more, read + [w[0]], hops);
    }
  }

  /** A separator read in the middle of a label shows in the name. */
  lemma SeparatorShows(read: seq<Byte>, part: seq<Byte>, b: nat, name: seq<Byte>)
    requires 0 < b < |part| && DOT !in part
    requires Append(read, part[..b]) + [DOT] <= name
    ensures !(Append(read, part) <= name)
  {
    var k := |Append(read, part[..b])|;
    assert name[k] == (Append(read, part[..b]) + [DOT])[k] == DOT;
    assert Append(read, part)[k] == part[b];
  }

  /** Between labels the decoder stops at once or writes a separator. */
  lemma ScanPastLabel(data: seq<Byte>, start: nat, pos: nat, read: seq<Byte>, hops: nat)
    requires Ends(data, pos, 0, hops) && start <= pos && read != []
    ensures
      var d := Scan(data, start, pos, 0, read, hops);
      d.read <= pos + 1 - start || read + [DOT] <= d.name
  {
    if pos < |data| && 0 < data[pos] as nat < INDIRECT {
      ScanRange(data, start, pos + 1, data[pos] as nat, Separated(read), hops);
    }
  }

  /** A length byte that ends the name or starts a pointer consumes at most two bytes. */
  lemma ScanShortStop(data: seq<Byte>, start: nat, pos: nat, read: seq<Byte>, hops: nat)
    requires Ends(data, pos, 0, hops) && start <= pos < |data|
    requires data[pos] == 0 || data[pos] as nat >= INDIRECT
    ensures Scan(data, start, pos, 0, read, hops).read <= pos + 2 - start
  {
  }

  /** A label longer than its truncated length byte says. */
  lemma LongLabelShows(data: seq<Byte>, start: nat, pos: nat, part: seq<Byte>, b: nat, read: seq<Byte>, hops: nat)
    requires At(data, pos, part) && start <= pos && 0 < b < |part| && DOT !in part
    requires Ends(data, pos, b, hops)
    ensures
      var d := Scan(data, start, pos, b, Separated(read), hops);
      d.read < pos + |part| + 1 - start || !(Append(read, part) <= d.name)
  {
    var w := part[..b];
    var d := Scan(data, start, pos, b, Separated(read), hops);
    assert part == w + part[b..];
    AtSplit(data, pos, w, part[b..]);
    if 0 in w {
      ScanStopsAtNul(data, start, pos, w, 0, Separated(read), hops);
    } else {
      ScanInLabel(data, start, pos, w, 0, Separated(read), hops);
      ScanPastLabel(data, start, pos + b, Append(read, w), hops);
      if Append(read, w) + [DOT] <= d.name {
        SeparatorShows(read, part, b, d.name);
      }
    }
  }

  /** A label the codec does not carry is cut short, fails, or spoils the name. */
  lemma BadLabelShows(data: seq<Byte>, start: nat, pos: nat, part: seq<Byte>, read: seq<Byte>, hops: nat)
    requires LabelAt(data, pos, part) && start <= pos
    requires !CarriedLabel(part) && DOT !in part && Ends(data, pos, 0, hops)
    ensures
      var d := Scan(data, start, pos, 0, read, hops);
      d.read < pos + |part| + 2 - start || !(Append(read, part) <= d.name)
  {
    var b := |part| % 256;
    AtSplit(data, pos, [b as Byte], part);
    assert data[pos] == data[pos..pos + 1][0] == b as Byte;
    if b == 0 || b >= INDIRECT {
      ScanShortStop(data, start, pos, read, hops);
    } else if b < |part| {
      LongLabelShows(data, start, pos + 1, part, b, read, hops);
    } else {
      ScanStopsAtNul(data, start, pos + 1, part, 0, Separated(read), hops);
    }
  }

  lemma FirstLabelCarried(data: seq<Byte>, start: nat, pos: nat, parts: seq<seq<Byte>>, read: seq<Byte>, hops: nat)
    requires At(data, pos, LabelBytes(parts)) && parts != [] && Free(parts, DOT) && start <= pos
    requires Ends(data, pos, 0, hops)
    requires Scan(data, start, pos, 0, read, hops).read == pos + |LabelBytes(parts)| + 1 - start
    requires Append(read, parts[0]) <= Scan(data, start, pos, 0, read, hops).name
    ensures CarriedLabel(parts[0])
  {
    FirstLabel(data, pos, parts);
    if !CarriedLabel(parts[0]) {
      BadLabelShows(data, start, pos, parts[0], read, hops);
    }
  }

  lemma CarriedCons(parts: seq<seq<Byte>>)
    requires parts != [] && CarriedLabel(parts[0]) && CarriedLabels(parts[1..])
    ensures CarriedLabels(parts)
  {
    assert forall i :: 1 <= i < |parts| ==> parts[i] == parts[1..][i - 1];
  }

  /** From `pos`, the decoder reads the encoded labels `parts` up to the final zero, and their name. */
  ghost predicate ReadsAll(data: seq<Byte>, start: nat, pos: nat, parts: seq<seq<Byte>>, read: seq<Byte>, hops: nat) {
    && At(data, pos, LabelBytes(parts)) && start <= pos && Ends(data, pos, 0, hops)
    && Scan(data, start, pos, 0, read, hops)
       == Decoded(Append(read, Join(parts, DOT)), pos + |LabelBytes(parts)| + 1 - start)
  }

  lemma ReadsFirstCarried(data: seq<Byte>, start: nat, pos: nat, parts: seq<seq<Byte>>, read: seq<Byte>, hops: nat)
    requires parts != [] && Free(parts, DOT) && ReadsAll(data, start, pos, parts, read, hops)
    ensures CarriedLabel(parts[0])
  {
    assert Append(read, parts[0]) <= Append(read, Join(parts, DOT));
    FirstLabelCarried(data, start, pos, parts, read, hops);
  }

  lemma ReadsRest(data: seq<Byte>, start: nat, pos: nat, parts: seq<seq<Byte>>, read: seq<Byte>, hops: nat)
    requires |parts| > 1 && CarriedLabel(parts[0]) && ReadsAll(data, start, pos, parts, read, hops)
    ensures ReadsAll(data, start, pos + 1 + |parts[0]|, parts[1..], Append(read, parts[0]), hops)
  {
    FirstLabel(data, pos, parts);
    AppendJoin(read, parts);
    ScanLabel(data, start, pos, parts[0], read, hops);
  }

  lemma {:induction false} OnlyCarriedLabels(data: seq<Byte>, start: nat, pos: nat, parts: seq<seq<Byte>>,
      read: seq<Byte>, hops: nat)
    requires parts != [] && Free(parts, DOT) && ReadsAll(data, start, pos, parts, read, hops)
    ensures CarriedLabels(parts)
    decreases |parts|
  {
    ReadsFirstCarried(data, start, pos, parts, read, hops);
    if |parts| > 1 {
      ReadsRest(data, start, pos, parts, read, hops);
      OnlyCarriedLabels(data, start, pos + 1 + |parts[0]|, parts[1..], Append(read, parts[0]), hops);
    }
    CarriedCons(parts);
  }

  lemma CarriedPlainly(parts: seq<seq<Byte>>)
    ensures CarriedLabels(parts) <==> forall part: seq<Byte> :: part in parts ==> 1 <= |part| <= 191 && 0 !in part
  {
    forall i | 0 <= i < |parts|
      ensures CarriedLabel(parts[i]) <==> 1 <= |parts[i]| <= 191 && 0 !in parts[i]
    {
    }
  }

  /** The round trip, the end of decoding included, holds exactly for names whose every label is
    * carried. */
  lemma RoundTripExactly(before: seq<Byte>, name: seq<Byte>, after: seq<Byte>)
    ensures
      var data := before + Encode(name) + after;
      SafeName(data, |before|) && Decode(data, |before|) == Decoded(name, |Encode(name)|)
      <==> forall part: seq<Byte> :: part in Split(name, 46) ==> 1 <= |part| <= 191 && 0 !in part
  {
    var data, parts := before + Encode(name) + after, Split(name, DOT);
    CarriedPlainly(parts);
    if CarriedLabels(parts) {
      RoundTrip(before, name, after);
    } else if SafeName(data, |before|) && Decode(data, |before|) == Decoded(name, |Encode(name)|) {
      assert At(data, |before|, Encode(name));
      AtSplit(data, |before|, LabelBytes(parts), [0]);
      JoinSplit(name, DOT);
      SplitFree(name, DOT);
      OnlyCarriedLabels(data, |before|, |before|, parts, [], Hops(data, |before|));
    }
  }
}
