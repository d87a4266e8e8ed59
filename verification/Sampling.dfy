/**
  * Bounded random numbers drawn from a stream of random bytes by rejection. The stream is an
  * arbitrary input; a read past its end is the read error of the program.
  */
module Sampling {
  import opened Wrappers
  import opened Bits

  const WORD32: nat := 0x1_0000_0000
  const WORD63: nat := 0x8000_0000_0000_0000
  const MAX_INT32: nat := 0x7FFF_FFFF

  datatype ReadError = ReadError

  /** What a draw returns, and what is left of the stream. */
  datatype Draw<T> = Draw(result: Result<T, ReadError>, rest: seq<Byte>)

  // ----- Words from bytes, most significant byte first

  function Word(bytes: seq<Byte>): nat {
    if bytes == [] then 0 else 256 * Word(bytes[..|bytes| - 1]) + bytes[|bytes| - 1] as nat
  }

  function Uint32(stream: seq<Byte>): Draw<nat> {
    if |stream| < 4 then Draw(Failure(ReadError), stream)
    else Draw(Success(Word(stream[..4])), stream[4..])
  }

  /** Eight bytes with the top bit of the first one cleared. */
  function Int63(stream: seq<Byte>): Draw<nat> {
    if |stream| < 8 then Draw(Failure(ReadError), stream)
    else Draw(Success(Word([stream[0] % 128] + stream[1..8])), stream[8..])
  }

  // ----- The 32-bit multiply-shift sampler

  function Threshold31(n: nat): nat
    requires 0 < n < WORD32
  {
    (WORD32 - n) % n
  }

  /** A draw is kept unless the low word of `v * n` falls below the threshold. */
  predicate Accepts31(v: nat, n: nat)
    requires 0 < n < WORD32
  {
    (v * n) % WORD32 >= Threshold31(n)
  }

  function Int31n(stream: seq<Byte>, n: nat): Draw<nat>
    requires 0 < n < WORD32
    decreases |stream|
  {
    var d := Uint32(stream);
    if d.result.Failure? then d
    else if Accepts31(d.result.value, n) then Draw(Success(d.result.value * n / WORD32), d.rest)
    else Int31n(d.rest, n)
  }

  ghost function Draws31(n: nat, r: nat): set<nat>
    requires 0 < n < WORD32
  {
    set v: nat | v < WORD32 && Accepts31(v, n) && v * n / WORD32 == r
  }

  // ----- The 63-bit remainder sampler

  function Accepts63Bound(n: nat): nat
    requires 0 < n < WORD63
  {
    WORD63 - 1 - WORD63 % n
  }

  predicate IsPowerOfTwo(n: nat)
    requires n > 0
  {
    And(n, n - 1) == 0
  }

  predicate Accepts63(v: nat, n: nat)
    requires 0 < n < WORD63
  {
    IsPowerOfTwo(n) || v <= Accepts63Bound(n)
  }

  function Int63n(stream: seq<Byte>, n: nat): Draw<nat>
    requires 0 < n < WORD63
    decreases |stream|
  {
    var d := Int63(stream);
    if d.result.Failure? then d
    else if Accepts63(d.result.value, n) then Draw(Success(d.result.value % n), d.rest)
    else Int63n(d.rest, n)
  }

  ghost function Draws63(n: nat, r: nat): set<nat>
    requires 0 < n < WORD63
  {
    set v: nat | v < WORD63 && Accepts63(v, n) && v % n == r
  }

  // ----- Counting lemmas

  /** The numbers from `a` up to `b`, and how many they are. */
  ghost function Interval(a: nat, b: nat): (s: set<nat>)
    requires a <= b
    ensures forall v: nat :: v in s <==> a <= v < b
    ensures |s| == b - a
    decreases b - a
  {
    if a == b then {} else {a} + Interval(a + 1, b)
  }

  function CeilDiv(x: nat, n: nat): nat
    requires n > 0
  {
    (x + n - 1) / n
  }

  lemma CeilDivIsLeast(x: nat, n: nat, v: nat)
    requires n > 0
    ensures x <= v * n <==> CeilDiv(x, n) <= v
  {
    var c := CeilDiv(x, n);
    var rem := (x + n - 1) % n;
    assert x + n - 1 == c * n + rem;
    assert (v - c) * n == v * n - c * n;
    NonZeroMultiple(v - c, n);
  }

  lemma CeilDivShift(x: nat, n: nat, q: nat)
    requires n > 0
    ensures CeilDiv(x + q * n, n) == CeilDiv(x, n) + q
  {
    var c, rem := CeilDiv(x, n), (x + n - 1) % n;
    assert x + q * n + n - 1 == (c + q) * n + rem by {
      assert x + n - 1 == c * n + rem;
      assert (c + q) * n == c * n + q * n;
    }
    RemainderUnique(x + q * n + n - 1, n, c + q, rem);
  }

  /** The threshold is the remainder of 2^32. */
  lemma ThresholdIsRemainder(n: nat)
    requires 0 < n < WORD32
    ensures Threshold31(n) == WORD32 % n < n
  {
    var q := WORD32 / n;
    assert WORD32 - n == (q - 1) * n + WORD32 % n by {
      assert WORD32 == q * n + WORD32 % n;
      assert (q - 1) * n == q * n - n;
    }
    assert q >= 1;
    RemainderUnique(WORD32 - n, n, q - 1, WORD32 % n);
  }

  /** The kept draws that return `r` are one block of floor(2^32/n) consecutive numbers. */
  lemma Draws31IsInterval(n: nat, r: nat) returns (a: nat)
    requires 0 < n < WORD32 && r < n
    ensures Draws31(n, r) == Interval(a, a + WORD32 / n)
  {
    var q, t := WORD32 / n, WORD32 % n;
    ThresholdIsRemainder(n);
    var lo := r * WORD32 + t;
    a := CeilDiv(lo, n);
    CeilDivShift(lo, n, q);
    forall v: nat
      ensures v in Draws31(n, r) <==> a <= v < a + q
    {
      LowWordInBlock(v * n, r, t);
      assert lo + q * n == (r + 1) * WORD32;
      CeilDivIsLeast(lo, n, v);
      CeilDivIsLeast(lo + q * n, n, v);
      ProductBelowWord(v, n, r);
    }
  }

  lemma ProductBelowWord(v: nat, n: nat, r: nat)
    requires r < n
    ensures v * n < (r + 1) * WORD32 ==> v < WORD32
  {
    if v >= WORD32 {
      assert v * n == WORD32 * n + (v - WORD32) * n;
      assert (v - WORD32) * n >= 0;
    }
  }

  lemma LowWordInBlock(p: nat, r: nat, t: nat)
    requires t < WORD32
    ensures p / WORD32 == r && p % WORD32 >= t <==> r * WORD32 + t <= p < (r + 1) * WORD32
  {
  }

  /** The 32-bit sampler is unbiased: every result has the same number of kept draws. */
  lemma Unbiased31(n: nat, r: nat)
    requires 0 < n < WORD32 && r < n
    ensures |Draws31(n, r)| == WORD32 / n
  {
    var a := Draws31IsInterval(n, r);
  }

  /** The numbers below `q * n` that leave remainder `r`, and how many they are. */
  ghost function Residues(n: nat, r: nat, q: nat): (s: set<nat>)
    requires r < n
    ensures forall v: nat :: v in s <==> v % n == r && v / n < q
    ensures |s| == q
  {
    if q == 0 then {}
    else
      ResidueInBlock(n, r, q - 1);
      Residues(n, r, q - 1) + {(q - 1) * n + r}
  }

  lemma ResidueInBlock(n: nat, r: nat, q: nat)
    requires r < n
    ensures forall v: nat :: v % n == r && v / n == q <==> v == q * n + r
  {
    RemainderUnique(q * n + r, n, q, r);
  }

  lemma BelowMultiple(v: nat, n: nat, q: nat)
    requires n > 0
    ensures v < q * n <==> v / n < q
  {
    assert v == (v / n) * n + v % n;
    assert (v / n - q) * n == (v / n) * n - q * n;
    NonZeroMultiple(v / n - q, n);
  }

  lemma PowerOfTwoDividesWord(n: nat)
    requires 0 < n < WORD63 && IsPowerOfTwo(n)
    ensures WORD63 % n == 0
  {
    Pow2Of63();
    PowerOfTwoDivides(n, 63);
  }

  /** Either branch of the sampler keeps exactly the draws below the largest multiple of `n`. */
  lemma KeptBelowMultiple(n: nat, v: nat)
    requires 0 < n < WORD63 && v < WORD63
    ensures Accepts63(v, n) <==> v / n < WORD63 / n
  {
    assert WORD63 == (WORD63 / n) * n + WORD63 % n;
    BelowMultiple(v, n, WORD63 / n);
    if IsPowerOfTwo(n) {
      PowerOfTwoDividesWord(n);
    }
  }

  /** The 63-bit sampler is unbiased too. */
  lemma Unbiased63(n: nat, r: nat)
    requires 0 < n < WORD63 && r < n
    ensures |Draws63(n, r)| == WORD63 / n
  {
    var s := Residues(n, r, WORD63 / n);
    forall v: nat
      ensures v in Draws63(n, r) <==> v in s
    {
      if v < WORD63 {
        KeptBelowMultiple(n, v);
      } else {
        DivisionMonotone(WORD63, v, n);
      }
    }
    assert Draws63(n, r) == s;
  }

  lemma DivisionMonotone(x: nat, y: nat, n: nat)
    requires n > 0 && x <= y
    ensures x / n <= y / n
  {
    assert (x / n - y / n) * n == x - x % n - (y - y % n);
    NonZeroMultiple(x / n - y / n, n);
  }

  // ----- Byte strings and words

  function Pow256(n: nat): nat {
    if n == 0 then 1 else 256 * Pow256(n - 1)
  }

  lemma {:induction false} WordBound(bytes: seq<Byte>)
    ensures Word(bytes) < Pow256(|bytes|)
  {
    if bytes == [] {
    } else {
      WordBound(bytes[..|bytes| - 1]);
    }
  }

  /** Uniform bytes make uniform words: no two byte strings of one length give the same word. */
  lemma {:induction false} WordInjective(a: seq<Byte>, b: seq<Byte>)
    requires |a| == |b| && Word(a) == Word(b)
    ensures a == b
  {
    if a == [] {
    } else {
      var n := |a| - 1;
      WordInjective(a[..n], b[..n]);
      assert a == a[..n] + [a[n]] && b == b[..n] + [b[n]];
    }
  }

  /** The `n` bytes of a word. */
  function BytesOf(v: nat, n: nat): (bytes: seq<Byte>)
    ensures |bytes| == n && (v < Pow256(n) ==> Word(bytes) == v)
  {
    if n == 0 then [] else BytesOf(v / 256, n - 1) + [(v % 256) as Byte]
  }

  /** An injective function has as many values on a set as the set has elements. */
  lemma {:induction false} Image<A, B>(s: set<A>, f: A -> B) returns (image: set<B>)
    requires forall x, y :: x in s && y in s && f(x) == f(y) ==> x == y
    ensures |image| == |s| && (forall x :: x in s ==> f(x) in image)
    ensures forall y :: y in image ==> exists x :: x in s && f(x) == y
  {
    image := {};
    if s != {} {
      var x :| x in s;
      var rest := Image(s - {x}, f);
      assert f(x) !in rest;
      image := rest + {f(x)};
    }
  }

  /** As many byte strings as words: each of the words below 256^n is the word of one string. */
  lemma StringsOf(words: set<nat>, n: nat) returns (strings: set<seq<Byte>>)
    requires forall v :: v in words ==> v < Pow256(n)
    ensures |strings| == |words| && forall b: seq<Byte> :: b in strings <==> |b| == n && Word(b) in words
  {
    var f := (v: nat) => BytesOf(v, n);
    assert forall v :: v in words ==> Word(f(v)) == v;
    strings := Image(words, f);
    forall b: seq<Byte>
      ensures b in strings <==> |b| == n && Word(b) in words
    {
      if |b| == n && Word(b) in words {
        WordInjective(b, f(Word(b)));
      }
    }
  }

  lemma OneDraw31(b: seq<Byte>, n: nat, r: nat)
    requires |b| == 4 && 0 < n < WORD32
    ensures Word(b) in Draws31(n, r) <==> Int31n(b, n) == Draw(Success(r), [])
  {
    WordBound(b);
    assert Pow256(4) == WORD32;
    assert b[..4] == b && b[4..] == [];
    assert Uint32(b) == Draw(Success(Word(b)), []);
    if Accepts31(Word(b), n) {
      assert Int31n(b, n) == Draw(Success(Word(b) * n / WORD32), []);
    } else {
      assert Int31n(b, n) == Int31n([], n);
    }
  }

  /** Each result of the 32-bit sampler is drawn at once by equally many strings of four bytes. */
  lemma EqualStrings31(n: nat, r: nat) returns (strings: set<seq<Byte>>)
    requires 0 < n < WORD32 && r < n
    ensures |strings| == WORD32 / n
    ensures forall b: seq<Byte> :: b in strings <==> |b| == 4 && Int31n(b, n) == Draw(Success(r), [])
  {
    assert Pow256(4) == WORD32;
    Unbiased31(n, r);
    strings := StringsOf(Draws31(n, r), 4);
    forall b: seq<Byte> | |b| == 4
      ensures Word(b) in Draws31(n, r) <==> Int31n(b, n) == Draw(Success(r), [])
    {
      OneDraw31(b, n, r);
    }
  }

  // ----- The draws in plain arithmetic

  /** Four bytes, most significant first. */
  lemma WordOfFour(a: Byte, b: Byte, c: Byte, d: Byte)
    ensures Word([a, b, c, d]) == ((a as nat * 256 + b as nat) * 256 + c as nat) * 256 + d as nat
  {
    assert [a, b, c, d][..3] == [a, b, c] && [a, b, c][..2] == [a, b] && [a, b][..1] == [a] && [a][..0] == [];
    assert Word([a]) == a as nat;
    assert Word([a, b]) == a as nat * 256 + b as nat;
    assert Word([a, b, c]) == (a as nat * 256 + b as nat) * 256 + c as nat;
  }

  /** The 31-bit sampler returns the high word of the product of its draw with `n`, unless the low word is
    * below 2^32 mod n; then it draws again. */
  lemma FirstDraw31(front: seq<Byte>, rest: seq<Byte>, n: nat)
    requires |front| == 4 && 0 < n < 0x1_0000_0000
    ensures
      var v := ((front[0] as nat * 256 + front[1] as nat) * 256 + front[2] as nat) * 256 + front[3] as nat;
      Int31n(front + rest, n) ==
      if v * n % 0x1_0000_0000 >= 0x1_0000_0000 % n then Draw(Success(v * n / 0x1_0000_0000), rest)
      else Int31n(rest, n)
  {
    WordOfFour(front[0], front[1], front[2], front[3]);
    assert front == [front[0], front[1], front[2], front[3]];
    assert (front + rest)[..4] == front && (front + rest)[4..] == rest;
    ThresholdIsRemainder(n);
  }

  lemma {:induction false} WordCons(b: seq<Byte>)
    requires b != []
    ensures Word(b) == b[0] as nat * Pow256(|b| - 1) + Word(b[1..])
  {
    var n, first := |b| - 1, b[0] as nat;
    if n == 0 {
      assert Word(b[..0]) == 0 && Word(b[1..]) == 0;
    } else {
      WordCons(b[..n]);
      assert b[..n][1..] == b[1..][..n - 1];
      ScaleBy256(first, Pow256(n - 1));
      assert first * Pow256(n) == 256 * (first * Pow256(n - 1));
    }
  }

  lemma DropHighBit(first: nat, rest: nat)
    requires rest < 0x100_0000_0000_0000
    ensures (first * 0x100_0000_0000_0000 + rest) % 0x8000_0000_0000_0000 == first % 128 * 0x100_0000_0000_0000 + rest
  {
    assert first == 128 * (first / 128) + first % 128;
    var low := first % 128 * 0x100_0000_0000_0000 + rest;
    assert first * 0x100_0000_0000_0000 + rest == first / 128 * 0x8000_0000_0000_0000 + low;
    assert 0 <= low < 0x8000_0000_0000_0000;
  }

  /** Eight bytes, most significant first, without the top bit. */
  lemma TopBitDropped(b: seq<Byte>)
    requires |b| == 8
    ensures Word([b[0] % 128] + b[1..8]) == Word(b) % 0x8000_0000_0000_0000
  {
    var w := [b[0] % 128] + b[1..8];
    assert w[1..] == b[1..];
    WordCons(b);
    WordCons(w);
    WordBound(b[1..]);
    assert Pow256(7) == 0x100_0000_0000_0000;
    DropHighBit(b[0] as nat, Word(b[1..]));
  }

  /** The 63-bit sampler returns its draw modulo `n`, unless the draw is at or above the largest multiple
    * of `n`; then it draws again. */
  lemma FirstDraw63(front: seq<Byte>, rest: seq<Byte>, n: nat)
    requires |front| == 8 && 0 < n < 0x8000_0000_0000_0000
    ensures
      var v := Word(front) % 0x8000_0000_0000_0000;
      Int63n(front + rest, n) ==
      if v < 0x8000_0000_0000_0000 - 0x8000_0000_0000_0000 % n then Draw(Success(v % n), rest)
      else Int63n(rest, n)
  {
    var v := Word(front) % WORD63;
    assert front[1..8] == (front + rest)[1..8] && (front + rest)[8..] == rest;
    TopBitDropped(front);
    if IsPowerOfTwo(n) {
      PowerOfTwoDividesWord(n);
    }
    assert Int63(front + rest) == Draw(Success(v), rest);
  }

  function WithTopBit(b: seq<Byte>): seq<Byte> {
    if b == [] || b[0] as nat >= 128 then b else [(b[0] as nat + 128) as Byte] + b[1..]
  }

  function WithoutTopBit(b: seq<Byte>): seq<Byte> {
    if b == [] then b else [b[0] % 128] + b[1..]
  }

  /** A byte shifts the bounds of a word by one place. */
  lemma ShiftBounds(first: nat, place: nat, word: nat, last: nat)
    requires first * place <= word < (first + 1) * place && last < 256
    ensures first * (256 * place) <= 256 * word + last < (first + 1) * (256 * place)
  {
    ScaleBy256(first, place);
    ScaleBy256(first + 1, place);
  }

  lemma ScaleBy256(a: nat, b: nat)
    ensures a * (256 * b) == 256 * (a * b)
  {
  }

  lemma {:induction false} FirstByteCounts(b: seq<Byte>)
    requires b != []
    ensures b[0] as nat * Pow256(|b| - 1) <= Word(b) < (b[0] as nat + 1) * Pow256(|b| - 1)
  {
    var n := |b| - 1;
    if n == 0 {
      assert Word(b[..0]) == 0;
    } else {
      FirstByteCounts(b[..n]);
      ShiftBounds(b[0] as nat, Pow256(n - 1), Word(b[..n]), b[n] as nat);
    }
  }

  lemma TopBitClear(b: seq<Byte>)
    requires |b| == 8 && Word(b) < WORD63
    ensures b[0] as nat < 128 && WithoutTopBit(b) == b && WithoutTopBit(WithTopBit(b)) == b
  {
    FirstByteCounts(b);
    assert Pow256(7) * 128 == WORD63;
    assert b == [b[0]] + b[1..];
  }

  lemma EightBytes(b: seq<Byte>)
    requires |b| == 8
    ensures b[0] as nat >= 128 ==> WithTopBit(WithoutTopBit(b)) == b
    ensures b[0] as nat < 128 ==> WithoutTopBit(b) == b && WithoutTopBit(WithTopBit(b)) == b
  {
    assert b == [b[0]] + b[1..];
  }

  ghost predicate LowStrings(low: set<seq<Byte>>) {
    forall b :: b in low ==> |b| == 8 && b[0] as nat < 128
  }

  lemma TopBitInjective(b: seq<Byte>, c: seq<Byte>)
    requires |b| == |c| == 8 && b[0] as nat < 128 && c[0] as nat < 128 && WithTopBit(b) == WithTopBit(c)
    ensures b == c
  {
    EightBytes(b);
    EightBytes(c);
  }

  lemma HighStrings(low: set<seq<Byte>>) returns (high: set<seq<Byte>>)
    requires LowStrings(low)
    ensures |high| == |low|
    ensures forall b :: b in high <==> |b| == 8 && b[0] as nat >= 128 && WithoutTopBit(b) in low
  {
    forall b, c | b in low && c in low && WithTopBit(b) == WithTopBit(c)
      ensures b == c
    {
      TopBitInjective(b, c);
    }
    high := Image(low, WithTopBit);
    forall b
      ensures b in high <==> |b| == 8 && b[0] as nat >= 128 && WithoutTopBit(b) in low
    {
      InHigh(low, high, b);
    }
  }

  lemma InHigh(low: set<seq<Byte>>, high: set<seq<Byte>>, b: seq<Byte>)
    requires LowStrings(low) && forall c :: c in low ==> WithTopBit(c) in high
    requires b in high ==> exists c :: c in low && WithTopBit(c) == b
    ensures b in high <==> |b| == 8 && b[0] as nat >= 128 && WithoutTopBit(b) in low
  {
    if c :| c in low && WithTopBit(c) == b {
      EightBytes(c);
    }
    if |b| == 8 {
      EightBytes(b);
    }
  }

  /** With and without the top bit: twice as many strings. */
  lemma Doubled(low: set<seq<Byte>>) returns (strings: set<seq<Byte>>)
    requires LowStrings(low)
    ensures |strings| == 2 * |low| && forall b :: b in strings <==> |b| == 8 && WithoutTopBit(b) in low
  {
    var high := HighStrings(low);
    assert low !! high;
    strings := low + high;
    forall b: seq<Byte> | |b| == 8 && b[0] as nat < 128
      ensures WithoutTopBit(b) == b
    {
      EightBytes(b);
    }
  }

  lemma OneDraw63(b: seq<Byte>, n: nat, r: nat)
    requires |b| == 8 && 0 < n < WORD63
    ensures Word(WithoutTopBit(b)) in Draws63(n, r) <==> Int63n(b, n) == Draw(Success(r), [])
  {
    var w := WithoutTopBit(b);
    assert w == [b[0] % 128] + b[1..8] && b[8..] == [];
    FirstByteCounts(w);
    assert Pow256(7) * 128 == WORD63;
    assert (w[0] as nat + 1) * Pow256(7) <= 128 * Pow256(7);
    assert Int63(b) == Draw(Success(Word(w)), []);
    if Accepts63(Word(w), n) {
      assert Int63n(b, n) == Draw(Success(Word(w) % n), []);
    } else {
      assert Int63n(b, n) == Int63n([], n);
    }
  }

  /** Each result of the 63-bit sampler is drawn at once by equally many strings of eight bytes: two
    * for every word, as the top bit is dropped. */
  lemma EqualStrings63(n: nat, r: nat) returns (strings: set<seq<Byte>>)
    requires 0 < n < WORD63 && r < n
    ensures |strings| == 2 * (WORD63 / n)
    ensures forall b: seq<Byte> :: b in strings <==> |b| == 8 && Int63n(b, n) == Draw(Success(r), [])
  {
    assert Pow256(8) == 2 * WORD63;
    Unbiased63(n, r);
    var low := StringsOf(Draws63(n, r), 8);
    forall b | b in low
      ensures b[0] as nat < 128
    {
      TopBitClear(b);
    }
    strings := Doubled(low);
    forall b: seq<Byte> | |b| == 8
      ensures WithoutTopBit(b) in low <==> Int63n(b, n) == Draw(Success(r), [])
    {
      OneDraw63(b, n, r);
    }
  }

  lemma HighWordBelow(v: nat, n: nat)
    requires v < WORD32 && n > 0
    ensures v * n / WORD32 < n
  {
    assert v * n == WORD32 * n - (WORD32 - v) * n;
    NonZeroMultiple(WORD32 - v, n);
  }

  /** Every number a sampler returns is below its bound. */
  lemma {:induction false} Int31nBelow(stream: seq<Byte>, n: nat)
    requires 0 < n < WORD32
    ensures Int31n(stream, n).result.Success? ==> Int31n(stream, n).result.value < n
    decreases |stream|
  {
    if |stream| >= 4 {
      WordBound(stream[..4]);
      assert Pow256(4) == WORD32;
      HighWordBelow(Word(stream[..4]), n);
      Int31nBelow(stream[4..], n);
    }
  }

  lemma {:induction false} Int63nBelow(stream: seq<Byte>, n: nat)
    requires 0 < n < WORD63
    ensures Int63n(stream, n).result.Success? ==> Int63n(stream, n).result.value < n
    decreases |stream|
  {
    if |stream| >= 8 {
      Int63nBelow(stream[8..], n);
    }
  }

  // ----- The samplers as the program runs them

  class RandomSource {
    var stream: seq<Byte>

    constructor (bytes: seq<Byte>)
      ensures stream == bytes
    {
      stream := bytes;
    }

    method RandUint32() returns (r: Result<nat, ReadError>)
      modifies this
      ensures Draw(r, stream) == Uint32(old(stream))
      ensures r.Success? ==> r.value < WORD32
    {
      if |stream| < 4 {
        return Failure(ReadError);
      }
      WordBound(stream[..4]);
      assert Pow256(4) == WORD32;
      r := Success(Word(stream[..4]));
      stream := stream[4..];
    }

    method RandInt63() returns (r: Result<nat, ReadError>)
      modifies this
      ensures Draw(r, stream) == Int63(old(stream))
    {
      if |stream| < 8 {
        return Failure(ReadError);
      }
      r := Success(Word([stream[0] % 128] + stream[1..8]));
      stream := stream[8..];
    }

    /** The remainder test runs only after the low word has fallen below `n`. */
    method RandInt31n(n: nat) returns (r: Result<nat, ReadError>)
      requires 0 < n <= MAX_INT32
      modifies this
      ensures Draw(r, stream) == Int31n(old(stream), n)
    {
      ThresholdIsRemainder(n);
      var v :- RandUint32();
      var prod := v * n;
      var low := prod % WORD32;
      if low < n {
        var thresh := (WORD32 - n) % n;
        while low < thresh
          invariant prod == v * n && low == prod % WORD32
          invariant Int31n(old(stream), n) ==
                    if low < thresh then Int31n(stream, n) else Draw(Success(prod / WORD32), stream)
          decreases |stream|
        {
          v :- RandUint32();
          prod := v * n;
          low := prod % WORD32;
        }
      }
      return Success(prod / WORD32);
    }

    method RandInt63n(n: nat) returns (r: Result<nat, ReadError>)
      requires 0 < n < WORD63
      modifies this
      ensures Draw(r, stream) == Int63n(old(stream), n)
    {
      if And(n, n - 1) == 0 {
        var w :- RandInt63();
        MaskIsRemainder(w, n);
        return Success(And(w, n - 1));
      }
      var maxVal := WORD63 - 1 - WORD63 % n;
      var v :- RandInt63();
      while v > maxVal
        invariant Int63n(old(stream), n) ==
                  if v > maxVal then Int63n(stream, n) else Draw(Success(v % n), stream)
        decreases |stream|
      {
        v :- RandInt63();
      }
      return Success(v % n);
    }
  }
}
