/**
  * The Fisher-Yates shuffle over the rejection samplers: every permutation of distinct elements
  * comes from exactly one sequence of choices.
  */
module Shuffle {
  import opened Wrappers
  import opened Bits
  import opened Sampling

  function Swap<T>(s: seq<T>, i: nat, j: nat): seq<T>
    requires i < |s| && j < |s|
  {
    s[i := s[j]][j := s[i]]
  }

  /** The choice made at position `i` lies in `0..i`, then at `i - 1`, and so on down. */
  ghost predicate Choices(i: int, js: seq<nat>) {
    |js| <= (if i < 0 then 0 else i) && forall k :: 0 <= k < |js| ==> js[k] <= i - k
  }

  /** The effect of swapping position `i` with its choice, then `i - 1`, and so on. */
  function Shuffled<T>(s: seq<T>, i: int, js: seq<nat>): (t: seq<T>)
    requires i < |s| && Choices(i, js)
    ensures |t| == |s|
    decreases |js|
  {
    if js == [] then s else Shuffled(Swap(s, i, js[0]), i - 1, js[1..])
  }

  ghost predicate Distinct<T(!new)>(s: seq<T>) {
    forall a, b :: 0 <= a < b < |s| ==> s[a] != s[b]
  }

  ghost predicate Permutation<T>(s: seq<T>, t: seq<T>) {
    multiset(s) == multiset(t)
  }

  // ----- Facts about the shuffle of a sequence

  lemma SwapIsPermutation<T>(s: seq<T>, i: nat, j: nat)
    requires i < |s| && j < |s|
    ensures Permutation(s, Swap(s, i, j))
  {
  }

  lemma {:induction false} ShuffledIsPermutation<T>(s: seq<T>, i: int, js: seq<nat>)
    requires i < |s| && Choices(i, js)
    ensures Permutation(s, Shuffled(s, i, js))
    decreases |js|
  {
    if js == [] {
    } else {
      SwapIsPermutation(s, i, js[0]);
      ShuffledIsPermutation(Swap(s, i, js[0]), i - 1, js[1..]);
    }
  }

  /** Positions above `i` are final. */
  lemma {:induction false} ShuffledKeepsAbove<T>(s: seq<T>, i: int, js: seq<nat>)
    requires i < |s| && Choices(i, js)
    ensures forall k :: i < k < |s| && 0 <= k ==> Shuffled(s, i, js)[k] == s[k]
    decreases |js|
  {
    if js == [] {
    } else {
      ShuffledKeepsAbove(Swap(s, i, js[0]), i - 1, js[1..]);
    }
  }

  lemma SwapKeepsDistinct<T(!new)>(s: seq<T>, i: nat, j: nat)
    requires Distinct(s) && i < |s| && j < |s|
    ensures Distinct(Swap(s, i, j))
  {
  }

  /** Different choices give different orders. */
  lemma {:induction false} ChoicesDetermined<T(!new)>(s: seq<T>, i: int, js: seq<nat>, ks: seq<nat>)
    requires i < |s| && Choices(i, js) && Choices(i, ks) && |js| == |ks|
    requires Distinct(s) && Shuffled(s, i, js) == Shuffled(s, i, ks)
    ensures js == ks
    decreases |js|
  {
    if js == [] {
    } else {
      var s1, s2 := Swap(s, i, js[0]), Swap(s, i, ks[0]);
      ShuffledKeepsAbove(s1, i - 1, js[1..]);
      ShuffledKeepsAbove(s2, i - 1, ks[1..]);
      assert Shuffled(s1, i - 1, js[1..])[i] == Shuffled(s2, i - 1, ks[1..])[i];
      assert s1[i] == s2[i];
      assert s[js[0]] == s[ks[0]];
      SwapKeepsDistinct(s, i, js[0]);
      ChoicesDetermined(s1, i - 1, js[1..], ks[1..]);
      assert js == [js[0]] + js[1..] && ks == [ks[0]] + ks[1..];
    }
  }

  lemma SharedTailElement<T>(s: seq<T>, t: seq<T>, i: nat) returns (j: nat)
    requires |s| == |t| && Permutation(s, t) && i < |s|
    requires forall k :: i < k < |s| ==> t[k] == s[k]
    ensures j <= i && s[j] == t[i]
  {
    assert s == s[..i + 1] + s[i + 1..];
    assert t == t[..i + 1] + t[i + 1..];
    assert s[i + 1..] == t[i + 1..];
    assert multiset(s) == multiset(s[..i + 1]) + multiset(s[i + 1..]);
    assert multiset(t) == multiset(t[..i + 1]) + multiset(t[i + 1..]);
    assert multiset(s[..i + 1]) == multiset(s) - multiset(s[i + 1..]);
    assert multiset(s[..i + 1]) == multiset(t[..i + 1]);
    assert t[..i + 1][i] in multiset(s[..i + 1]);
    j :| 0 <= j < i + 1 && s[..i + 1][j] == t[i];
  }

  /** Every order is reached. */
  lemma {:induction false} EveryOrderReached<T(!new)>(s: seq<T>, t: seq<T>, i: int) returns (js: seq<nat>)
    requires |s| == |t| && Permutation(s, t) && Distinct(s) && -1 <= i < |s|
    requires forall k :: i < k < |s| ==> t[k] == s[k]
    ensures Choices(i, js) && |js| == (if i < 0 then 0 else i)
    ensures Shuffled(s, i, js) == t
    decreases i + 1
  {
    js := [];
    if i >= 0 {
      var j := SharedTailElement(s, t, i);
      if i > 0 {
        var s' := Swap(s, i, j);
        SwapIsPermutation(s, i, j);
        SwapKeepsDistinct(s, i, j);
        var rest := EveryOrderReached(s', t, i - 1);
        js := [j] + rest;
        assert js[1..] == rest;
      }
    }
  }

  /** Exactly one sequence of choices for each order of distinct elements. */
  lemma ShuffleIsBijective<T(!new)>(s: seq<T>, t: seq<T>) returns (js: seq<nat>)
    requires |s| == |t| && Distinct(s) && Permutation(s, t)
    ensures Choices(|s| - 1, js) && |js| == (if s == [] then 0 else |s| - 1)
    ensures Shuffled(s, |s| - 1, js) == t
    ensures forall ks :: Choices(|s| - 1, ks) && |ks| == |js| && Shuffled(s, |s| - 1, ks) == t ==> ks == js
  {
    js := EveryOrderReached(s, t, |s| - 1);
    forall ks | Choices(|s| - 1, ks) && |ks| == |js| && Shuffled(s, |s| - 1, ks) == t
      ensures ks == js
    {
      ChoicesDetermined(s, |s| - 1, ks, js);
    }
  }

  // ----- Drawing the choices

  /** Positions past 2^31 - 2 use the 63-bit sampler, the others the 31-bit one. */
  function ChoiceAt(stream: seq<Byte>, i: nat): Draw<nat>
    requires i + 1 < WORD63
  {
    if i > MAX_INT32 - 1 then Int63n(stream, i + 1) else Int31n(stream, i + 1)
  }

  lemma ChoiceBelow(stream: seq<Byte>, i: nat)
    requires i + 1 < WORD63
    ensures ChoiceAt(stream, i).result.Success? ==> ChoiceAt(stream, i).result.value <= i
  {
    if i > MAX_INT32 - 1 {
      Int63nBelow(stream, i + 1);
    } else {
      Int31nBelow(stream, i + 1);
    }
  }

  /** Where a shuffle ends: the order, whether the stream sufficed, and what is left of it. */
  datatype Ending<T> = Ending(order: seq<T>, complete: bool, rest: seq<Byte>)

  /** The shuffle as the program runs it, from position `i` down. */
  function ShuffleFrom<T>(s: seq<T>, i: int, stream: seq<Byte>): Ending<T>
    requires i < |s| && i + 1 < WORD63
    decreases i
  {
    if i <= 0 then Ending(s, true, stream)
    else
      var d := ChoiceAt(stream, i);
      if d.result.Failure? then Ending(s, false, d.rest)
      else
        ChoiceBelow(stream, i);
        ShuffleFrom(Swap(s, i, d.result.value), i - 1, d.rest)
  }

  /** One turn of the loop: a choice drawn from `stream`, leaving `rest`. */
  lemma NextChoice<T>(s: seq<T>, i: nat, stream: seq<Byte>, v: Result<nat, ReadError>, rest: seq<Byte>)
    requires 0 < i < |s| && i + 1 < WORD63 && ChoiceAt(stream, i) == Draw(v, rest)
    ensures v.Failure? ==> ShuffleFrom(s, i, stream) == Ending(s, false, rest)
    ensures v.Success? ==>
              v.value <= i && ShuffleFrom(s, i, stream) == ShuffleFrom(Swap(s, i, v.value), i - 1, rest)
  {
    ChoiceBelow(stream, i);
  }

  /** The choices drawn before the stream ran out. */
  function DrawChoices(stream: seq<Byte>, i: int): seq<nat>
    requires i + 1 < WORD63
    decreases i
  {
    if i <= 0 || ChoiceAt(stream, i).result.Failure? then []
    else [ChoiceAt(stream, i).result.value] + DrawChoices(ChoiceAt(stream, i).rest, i - 1)
  }

  /** A run makes in-range choices, all of them unless the stream ran out, and orders by them. */
  lemma {:induction false} RunIsShuffled<T>(s: seq<T>, i: int, stream: seq<Byte>)
    requires i < |s| && i + 1 < WORD63
    ensures Choices(i, DrawChoices(stream, i))
    ensures ShuffleFrom(s, i, stream).order == Shuffled(s, i, DrawChoices(stream, i))
    ensures ShuffleFrom(s, i, stream).complete <==> |DrawChoices(stream, i)| == if i < 0 then 0 else i
    decreases i
  {
    if i <= 0 {
    } else {
      var d := ChoiceAt(stream, i);
      if d.result.Success? {
        ChoiceBelow(stream, i);
        RunIsShuffled(Swap(s, i, d.result.value), i - 1, d.rest);
        assert DrawChoices(stream, i)[1..] == DrawChoices(d.rest, i - 1);
      }
    }
  }

  method SwapEntries<T>(a: array<T>, i: nat, j: nat)
    requires i < a.Length && j < a.Length
    modifies a
    ensures a[..] == Swap(old(a[..]), i, j)
  {
    a[i], a[j] := a[j], a[i];
  }

  method RandShuffle<T>(a: array<T>, src: RandomSource) returns (err: Option<ReadError>)
    requires a.Length < WORD63
    modifies a, src
    ensures ShuffleFrom(old(a[..]), a.Length - 1, old(src.stream)) == Ending(a[..], err.None?, src.stream)
  {
    ghost var s := a[..];
    ghost var end := ShuffleFrom(s, a.Length - 1, src.stream);
    var i := a.Length - 1;
    while i > MAX_INT32 - 1
      invariant i < a.Length && a[..] == s
      invariant ShuffleFrom(s, i, src.stream) == end
    {
      ghost var stream := src.stream;
      var v := src.RandInt63n(i + 1);
      NextChoice(s, i, stream, v, src.stream);
      if v.Failure? {
        return Some(ReadError);
      }
      SwapEntries(a, i, v.value);
      s := a[..];
      i := i - 1;
    }
    while i > 0
      invariant i < a.Length && i <= MAX_INT32 - 1 && a[..] == s
      invariant ShuffleFrom(s, i, src.stream) == end
    {
      ghost var stream := src.stream;
      var v := src.RandInt31n(i + 1);
      NextChoice(s, i, stream, v, src.stream);
      if v.Failure? {
        return Some(ReadError);
      }
      SwapEntries(a, i, v.value);
      s := a[..];
      i := i - 1;
    }
    return None;
  }
}
