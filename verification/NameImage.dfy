/** What the decoder reads without following a pointer: labels, and when they are an encoding. */
module NameImage {
  import opened Bits
  import opened Labels
  import opened NameCodec
  import opened NameCodecLaws

  /** A label that is read to its end stands in the buffer, without a NUL. */
  lemma {:induction false} ReadThrough(data: seq<Byte>, start: nat, pos: nat, toread: nat, read: seq<Byte>, hops: nat)
    requires Ends(data, pos, toread, hops) && Scan(data, start, pos, toread, read, hops) != BAD
    ensures pos + toread < |data| && 0 !in data[pos..pos + toread]
    decreases toread
  {
    if toread == 0 {
    } else {
      ReadThrough(data, start, pos + 1, toread - 1, read + [data[pos]], hops);
      assert data[pos..pos + toread] == [data[pos]] + data[pos + 1..pos + 1 + (toread - 1)];
    }
  }

  /** The label that starts at `pos` with its length byte. */
  lemma OneLabelRead(data: seq<Byte>, start: nat, pos: nat, read: seq<Byte>) returns (part: seq<Byte>)
    requires Ends(data, pos, 0, 0) && Scan(data, start, pos, 0, read, 0) != BAD
    requires pos < |data| && data[pos] != 0
    ensures CarriedLabel(part) && LabelAt(data, pos, part)
    ensures From(data, start, pos, read, 0) == From(data, start, pos + 1 + |part|, Append(read, part), 0)
  {
    var n := data[pos] as nat;
    ReadThrough(data, start, pos + 1, n, Separated(read), 0);
    part := data[pos + 1..pos + 1 + n];
    assert data[pos..pos + 1 + n] == [data[pos]] + part;
    ScanLabel(data, start, pos, part, read, 0);
  }

  /** Without pointers, a name that is read is labels up to a NUL. */
  lemma {:induction false} LabelsRead(data: seq<Byte>, start: nat, pos: nat,
                                      read: seq<Byte>) returns (parts: seq<seq<Byte>>)
    requires Ends(data, pos, 0, 0) && Scan(data, start, pos, 0, read, 0) != BAD
    ensures CarriedLabels(parts) && At(data, pos, LabelBytes(parts) + [0])
    ensures Scan(data, start, pos, 0, read, 0) == Decoded(AppendAll(read, parts), pos + |LabelBytes(parts)| + 1 - start)
    decreases |data| - pos
  {
    if data[pos] == 0 {
      parts := [];
      assert data[pos..pos + 1] == [] + [0];
    } else {
      var part := OneLabelRead(data, start, pos, read);
      var rest := LabelsRead(data, start, pos + 1 + |part|, Append(read, part));
      parts := [part] + rest;
      assert parts[1..] == rest;
      JoinAt(data, pos, [(|part| % 256) as Byte] + part, LabelBytes(rest) + [0]);
      assert LabelBytes(parts) + [0] == [(|part| % 256) as Byte] + part + (LabelBytes(rest) + [0]);
    }
  }

  lemma JoinAt(data: seq<Byte>, pos: nat, a: seq<Byte>, b: seq<Byte>)
    requires At(data, pos, a) && At(data, pos + |a|, b)
    ensures At(data, pos, a + b)
  {
    assert data[pos..pos + |a| + |b|] == data[pos..pos + |a|] + data[pos + |a|..pos + |a| + |b|];
  }

  /** The labels of a name that decodes without pointers. */
  lemma DecodedLabels(data: seq<Byte>, start: nat) returns (parts: seq<seq<Byte>>)
    requires Ends(data, start, 0, 0) && SafeName(data, start) && Decode(data, start) != BAD
    ensures CarriedLabels(parts) && At(data, start, LabelBytes(parts) + [0])
    ensures Decode(data, start) == Decoded(Join(parts, DOT), |LabelBytes(parts)| + 1)
  {
    DecodeIs(data, start, 0);
    parts := LabelsRead(data, start, start, []);
    AppendAllFromNothing(parts);
  }

  // ----- When they are an encoding

  lemma {:induction false} LabelBytesInjective(a: seq<seq<Byte>>, b: seq<seq<Byte>>)
    requires CarriedLabels(a) && CarriedLabels(b) && LabelBytes(a) == LabelBytes(b)
    ensures a == b
    decreases |a|
  {
    if a == [] || b == [] {
      assert |LabelBytes(a)| == |LabelBytes(b)|;
    } else {
      var x, y := LabelBytes(a[1..]), LabelBytes(b[1..]);
      assert LabelBytes(a) == [|a[0]| as Byte] + a[0] + x && LabelBytes(b) == [|b[0]| as Byte] + b[0] + y;
      assert LabelBytes(a)[0] == |a[0]| as Byte && LabelBytes(b)[0] == |b[0]| as Byte;
      var n := 1 + |a[0]|;
      assert a[0] == LabelBytes(a)[1..n] == LabelBytes(b)[1..n] == b[0];
      assert x == LabelBytes(a)[n..] == LabelBytes(b)[n..] == y;
      LabelBytesInjective(a[1..], b[1..]);
      assert a == [a[0]] + a[1..] && b == [b[0]] + b[1..];
    }
  }

  /** A name that decodes without pointers was read from exactly its own encoding, exactly when it has a
    * label and no label has a dot in it. */
  lemma EncodingExactly(data: seq<Byte>, start: nat) returns (parts: seq<seq<Byte>>)
    requires Ends(data, start, 0, 0) && SafeName(data, start) && Decode(data, start) != BAD
    ensures CarriedLabels(parts) && At(data, start, LabelBytes(parts) + [0])
    ensures Decode(data, start) == Decoded(Join(parts, DOT), |LabelBytes(parts)| + 1)
    ensures
      var d := Decode(data, start);
      start + d.read <= |data|
      && (data[start..start + d.read] == Encode(d.name) <==> parts != [] && Free(parts, DOT))
  {
    parts := DecodedLabels(data, start);
    var name := Join(parts, DOT);
    if parts != [] && Free(parts, DOT) {
      SplitJoin(parts, DOT);
    }
    if LabelBytes(parts) + [0] == Encode(name) {
      EncodedLabels(data, start, name);
      assert LabelBytes(parts) == (LabelBytes(parts) + [0])[..|LabelBytes(parts)|];
      assert LabelBytes(Split(name, DOT)) == Encode(name)[..|LabelBytes(parts)|];
      LabelBytesInjective(parts, Split(name, DOT));
      SplitFree(name, DOT);
    }
  }

  /** An encoding that decodes to its name is one of carried labels. */
  lemma EncodedLabels(data: seq<Byte>, start: nat, name: seq<Byte>)
    requires At(data, start, Encode(name)) && SafeName(data, start)
    requires Decode(data, start) == Decoded(name, |Encode(name)|)
    ensures CarriedLabels(Split(name, DOT))
  {
    var before, after := data[..start], data[start + |Encode(name)|..];
    assert data == before + Encode(name) + after;
    RoundTripExactly(before, name, after);
    CarriedPlainly(Split(name, DOT));
  }
}
