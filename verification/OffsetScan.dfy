/**
  * The scan that picks the next free fake-address offset: a 65536-bit map held in 1024 words of
  * 64 bits, proved to compute the least offset that no stored reverse record uses.
  */
module OffsetScan {
  import opened Wrappers
  import opened Bits
  import opened Addresses
  import opened Records

  const WORD_BITS: nat := 64
  const WORDS: nat := (MAX_VALUE + 1) / WORD_BITS

  // ----- Specification

  ghost function Offsets(records: seq<ReverseDNS>): set<Offset> {
    set r | r in records :: r.destIPOffset
  }

  /** The least offset outside `used` that is at least `from`. */
  ghost function LeastFreeFrom(used: set<Offset>, from: nat): (r: Option<Offset>)
    requires from <= MAX_VALUE + 1
    ensures r.Some? ==> from <= r.value as nat && r.value !in used
    ensures r.Some? ==> forall o: Offset :: from <= o as nat && o < r.value ==> o in used
    ensures r.None? ==> forall o: Offset :: from <= o as nat ==> o in used
    decreases MAX_VALUE + 1 - from
  {
    if from == MAX_VALUE + 1 then None
    else if from as Offset !in used then Some(from as Offset)
    else LeastFreeFrom(used, from + 1)
  }

  ghost function LeastFree(used: set<Offset>): Option<Offset> {
    LeastFreeFrom(used, 0)
  }

  // ----- The bit map

  ghost predicate Seen(seen: seq<nat>, o: Offset)
    requires |seen| == WORDS
  {
    Bit(seen[o as nat / WORD_BITS], o as nat % WORD_BITS)
  }

  /** The map marks exactly the offsets in `used`, in words of 64 bits. */
  ghost predicate Marks(seen: seq<nat>, used: set<Offset>) {
    && |seen| == WORDS
    && (forall k :: 0 <= k < WORDS ==> seen[k] < Pow2(WORD_BITS))
    && (forall o: Offset :: Seen(seen, o) <==> o in used)
  }

  lemma EmptyMap(seen: seq<nat>)
    requires |seen| == WORDS && forall k :: 0 <= k < WORDS ==> seen[k] == 0
    ensures Marks(seen, {})
  {
    forall o: Offset
      ensures !Seen(seen, o)
    {
      ZeroBit(o as nat % WORD_BITS);
    }
  }

  /** Marking sets one bit of a word and keeps it within 64 bits. */
  lemma MarkBit(w: nat, bit: nat, i: nat)
    requires w < Pow2(WORD_BITS) && bit < WORD_BITS
    ensures Or(w, Pow2(bit)) < Pow2(WORD_BITS)
    ensures Bit(Or(w, Pow2(bit)), i) == (Bit(w, i) || i == bit)
  {
    Pow2Monotone(bit, WORD_BITS);
    OrBound(w, Pow2(bit), WORD_BITS);
    OrBit(w, Pow2(bit), i);
    Pow2Bit(bit, i);
  }

  /** One marking step adds exactly one offset to the map. */
  lemma MarkOffset(seen: seq<nat>, used: set<Offset>, n: Offset)
    requires Marks(seen, used)
    ensures
      var k := n as nat / WORD_BITS;
      Marks(seen[k := Or(seen[k], Pow2(n as nat % WORD_BITS))], used + {n})
  {
    var k, bit := n as nat / WORD_BITS, n as nat % WORD_BITS;
    var after := seen[k := Or(seen[k], Pow2(bit))];
    MarkBit(seen[k], bit, 0);
    forall o: Offset
      ensures Seen(after, o) <==> o in used + {n}
    {
      MarkBit(seen[k], bit, o as nat % WORD_BITS);
      assert Seen(seen, o) <==> o in used;
    }
  }

  ghost predicate AllUsedBelow(used: set<Offset>, n: nat) {
    forall o: Offset :: o as nat < n ==> o in used
  }

  /** What the complement of a word says: it is zero for a full word, and otherwise its
    * trailing-zero count is the first clear bit. */
  lemma FirstClearBit(w: nat)
    ensures
      var inv := Complement(w, WORD_BITS);
      if inv == 0 then
        forall i :: 0 <= i < WORD_BITS ==> Bit(w, i)
      else
        var bit := TrailingZeros(inv);
        bit < WORD_BITS && !Bit(w, bit) && forall i :: 0 <= i < bit ==> Bit(w, i)
  {
    var inv := Complement(w, WORD_BITS);
    ComplementBound(w, WORD_BITS);
    if inv != 0 {
      TrailingZerosIsLowestBit(inv, WORD_BITS);
    }
    forall i | 0 <= i < WORD_BITS
      ensures Bit(inv, i) == !Bit(w, i)
      ensures inv == 0 ==> Bit(w, i)
    {
      ComplementBit(w, WORD_BITS, i);
      ZeroBit(i);
    }
  }

  lemma WordOf(wordIdx: nat, o: Offset)
    requires wordIdx * WORD_BITS <= o as nat < (wordIdx + 1) * WORD_BITS
    ensures o as nat / WORD_BITS == wordIdx && o as nat % WORD_BITS == o as nat - wordIdx * WORD_BITS
  {
  }

  lemma ScanWord(seen: seq<nat>, used: set<Offset>, wordIdx: nat)
    requires Marks(seen, used) && wordIdx < WORDS && AllUsedBelow(used, wordIdx * WORD_BITS)
    ensures
      var inv := Complement(seen[wordIdx], WORD_BITS);
      if inv == 0 then
        AllUsedBelow(used, (wordIdx + 1) * WORD_BITS)
      else
        var result := wordIdx * WORD_BITS + TrailingZeros(inv);
        result <= MAX_VALUE && result as Offset !in used && AllUsedBelow(used, result)
  {
    var w := seen[wordIdx];
    FirstClearBit(w);
    forall o: Offset | wordIdx * WORD_BITS <= o as nat < (wordIdx + 1) * WORD_BITS
      ensures o in used <==> Bit(w, o as nat - wordIdx * WORD_BITS)
    {
      WordOf(wordIdx, o);
      assert Seen(seen, o) <==> o in used;
    }
    var inv := Complement(w, WORD_BITS);
    var end := wordIdx * WORD_BITS + if inv == 0 then WORD_BITS else TrailingZeros(inv);
    forall o: Offset | o as nat < end
      ensures o in used
    {
      if wordIdx * WORD_BITS <= o as nat {
        assert Bit(w, o as nat - wordIdx * WORD_BITS);
      }
    }
  }

  lemma ScanResult(used: set<Offset>, n: nat)
    requires AllUsedBelow(used, n) && n <= MAX_VALUE + 1
    requires n <= MAX_VALUE ==> n as Offset !in used
    ensures LeastFree(used) == if n <= MAX_VALUE then Some(n as Offset) else None
  {
    var r := LeastFree(used);
    if r.Some? {
      assert r.value as nat >= n;
    }
  }

  /** First half of the scan: mark every offset in use. */
  method MarkSeen(nums: seq<ReverseDNS>) returns (seen: array<nat>)
    ensures fresh(seen) && Marks(seen[..], Offsets(nums))
  {
    seen := new nat[WORDS](_ => 0);
    EmptyMap(seen[..]);
    for i := 0 to |nums|
      invariant Marks(seen[..], Offsets(nums[..i]))
    {
      var n := nums[i].destIPOffset;
      var k, bit := n as nat / WORD_BITS, n as nat % WORD_BITS;
      MarkOffset(seen[..], Offsets(nums[..i]), n);
      ghost var marked := seen[..][k := Or(seen[k], Pow2(bit))];
      seen[k] := Or(seen[k], Pow2(bit));
      assert seen[..] == marked;
      assert Offsets(nums[..i + 1]) == Offsets(nums[..i]) + {n};
    }
    assert nums[..|nums|] == nums;
  }

  /** Second half: the first clear bit of the first word that has one. */
  method FirstAvailable(nums: seq<ReverseDNS>) returns (r: Option<Offset>)
    ensures r == LeastFree(Offsets(nums))
    ensures r.Some? ==> r.value !in Offsets(nums) && forall o: Offset :: o < r.value ==> o in Offsets(nums)
    ensures r.None? ==> forall o: Offset :: o in Offsets(nums)
  {
    var seen := MarkSeen(nums);
    ghost var words := seen[..];
    for wordIdx := 0 to WORDS
      invariant seen[..] == words
      invariant AllUsedBelow(Offsets(nums), wordIdx * WORD_BITS)
    {
      ScanWord(words, Offsets(nums), wordIdx);
      var inv := Complement(seen[wordIdx], WORD_BITS);
      if inv != 0 {
        var result := wordIdx * WORD_BITS + TrailingZeros(inv);
        if result <= MAX_VALUE {
          ScanResult(Offsets(nums), result);
          return Some(result as Offset);
        }
      }
    }
    ScanResult(Offsets(nums), MAX_VALUE + 1);
    return None;
  }
}
