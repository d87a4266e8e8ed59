/** The shuffle is uniform down to the bytes: among the byte strings that are accepted at every draw,
  * equally many lead to each order of distinct elements. */
module ShuffleStrings {
  import opened Wrappers
  import opened Bits
  import opened Sampling
  import opened Shuffle

  /** The bytes of one draw at position `i`, and of one accepted draw at each position down from it. */
  function Width(i: nat): nat {
    if i >= 0x7FFF_FFFF then 8 else 4
  }

  function Length(i: int): nat
    decreases i
  {
    if i <= 0 then 0 else Width(i) + Length(i - 1)
  }

  /** How many byte strings draw a given choice at once at position `i`, and at each one down from it. */
  function DrawWays(i: nat): nat {
    if i >= 0x7FFF_FFFF then 2 * (0x8000_0000_0000_0000 / (i + 1)) else 0x1_0000_0000 / (i + 1)
  }

  function Ways(i: int): nat
    decreases i
  {
    if i <= 0 then 1 else DrawWays(i) * Ways(i - 1)
  }

  // ----- One draw

  lemma DrawStrings(i: nat, j: nat) returns (strings: set<seq<Byte>>)
    requires j <= i && i + 1 < WORD63
    ensures |strings| == DrawWays(i) && forall b :: b in strings <==> DrawsAtOnce(b, i, j)
  {
    if i > MAX_INT32 - 1 {
      strings := EqualStrings63(i + 1, j);
    } else {
      strings := EqualStrings31(i + 1, j);
    }
  }

  lemma {:induction false} Int31nTakes(stream: seq<Byte>, n: nat)
    requires 0 < n < WORD32
    ensures
      var d := Int31n(stream, n);
      d.result.Success? ==>
        && |d.rest| + 4 <= |stream|
        && (|d.rest| + 4 == |stream| ==> Accepts31(Word(stream[..4]), n))
    decreases |stream|
  {
    if |stream| >= 4 && !Accepts31(Word(stream[..4]), n) {
      Int31nTakes(stream[4..], n);
    }
  }

  lemma {:induction false} Int63nTakes(stream: seq<Byte>, n: nat)
    requires 0 < n < WORD63
    ensures
      var d := Int63n(stream, n);
      d.result.Success? ==>
        && |d.rest| + 8 <= |stream|
        && (|d.rest| + 8 == |stream| ==> Accepts63(Word([stream[0] % 128] + stream[1..8]), n))
    decreases |stream|
  {
    if |stream| >= 8 && !Accepts63(Word([stream[0] % 128] + stream[1..8]), n) {
      Int63nTakes(stream[8..], n);
    }
  }

  /** A draw takes its bytes, and no more exactly when it is accepted at once. */
  lemma ChoiceTakes(stream: seq<Byte>, i: nat)
    requires i + 1 < WORD63
    ensures
      var d := ChoiceAt(stream, i);
      d.result.Success? ==>
        && |d.rest| + Width(i) <= |stream|
        && (|d.rest| + Width(i) == |stream| ==>
              ChoiceAt(stream[..Width(i)], i) == Draw(d.result, []) && d.rest == stream[Width(i)..])
  {
    if i > MAX_INT32 - 1 {
      Int63nTakes(stream, i + 1);
      if |stream| >= 8 {
        assert stream[..8][0] == stream[0] && stream[..8][1..8] == stream[1..8] && stream[..8][8..] == [];
      }
    } else {
      Int31nTakes(stream, i + 1);
      if |stream| >= 4 {
        assert stream[..4][..4] == stream[..4] && stream[..4][4..] == [];
      }
    }
  }

  /** A choice drawn at once from the front leaves the rest. */
  lemma ChoiceFromFront(front: seq<Byte>, rest: seq<Byte>, i: nat, j: nat)
    requires i + 1 < WORD63 && |front| == Width(i) && ChoiceAt(front, i) == Draw(Success(j), [])
    ensures ChoiceAt(front + rest, i) == Draw(Success(j), rest)
  {
    var stream := front + rest;
    if i > MAX_INT32 - 1 {
      assert stream[0] == front[0] && stream[1..8] == front[1..8] && stream[8..] == rest && front[8..] == [];
      Int63nTakes(front, i + 1);
    } else {
      assert stream[..4] == front[..4] && stream[4..] == rest && front[4..] == [];
      Int31nTakes(front, i + 1);
    }
  }

  // ----- One turn

  lemma {:induction false} CompleteTakes<T>(s: seq<T>, i: int, b: seq<Byte>)
    requires i < |s| && i + 1 < WORD63
    ensures ShuffleFrom(s, i, b).complete ==> Length(i) + |ShuffleFrom(s, i, b).rest| <= |b|
    decreases i
  {
    if i <= 0 {
    } else {
      var d := ChoiceAt(b, i);
      if d.result.Success? {
        ChoiceBelow(b, i);
        ChoiceTakes(b, i);
        CompleteTakes(Swap(s, i, d.result.value), i - 1, d.rest);
      }
    }
  }

  lemma OrderAt<T>(s: seq<T>, i: nat, b: seq<Byte>)
    requires 0 < i < |s| && i + 1 < WORD63
    ensures |ShuffleFrom(s, i - 1, b).order| == |s| && ShuffleFrom(s, i - 1, b).order[i] == s[i]
  {
    RunIsShuffled(s, i - 1, b);
    ShuffledKeepsAbove(s, i - 1, DrawChoices(b, i - 1));
  }

  /** The first turn of a shuffle that leads to `t`. */
  lemma FirstTurn<T>(s: seq<T>, t: seq<T>, i: nat, b: seq<Byte>) returns (v: nat, rest: seq<Byte>)
    requires 0 < i < |s| && i + 1 < WORD63 && ShuffleFrom(s, i, b) == Ending(t, true, [])
    ensures v <= i && ChoiceAt(b, i) == Draw(Success(v), rest)
    ensures ShuffleFrom(Swap(s, i, v), i - 1, rest) == Ending(t, true, [])
  {
    var d := ChoiceAt(b, i);
    NextChoice(s, i, b, d.result, d.rest);
    v, rest := d.result.value, d.rest;
  }

  /** Only one choice puts `t`'s element in place. */
  lemma TurnPlaces<T(!new)>(s: seq<T>, i: nat, j: nat, v: nat, rest: seq<Byte>)
    requires 0 < i < |s| && i + 1 < WORD63 && j <= i && v <= i && Distinct(s)
    requires
      var order := ShuffleFrom(Swap(s, i, v), i - 1, rest).order;
      |order| == |s| && order[i] == s[j]
    ensures v == j
  {
    OrderAt(Swap(s, i, v), i, rest);
    assert s[v] == s[j];
  }

  /** A string as long as accepted draws need that leads to `t` draws, at once, the one choice that puts
    * `t`'s element in place. */
  lemma TurnDraws<T(!new)>(s: seq<T>, t: seq<T>, i: nat, j: nat, b: seq<Byte>)
    requires 0 < i < |s| == |t| && i + 1 < WORD63 && j <= i && Distinct(s) && s[j] == t[i] && |b| == Length(i)
    requires ShuffleFrom(s, i, b) == Ending(t, true, [])
    ensures ChoiceAt(b[..Width(i)], i) == Draw(Success(j), [])
    ensures ShuffleFrom(Swap(s, i, j), i - 1, b[Width(i)..]) == Ending(t, true, [])
  {
    var v, rest := FirstTurn(s, t, i, b);
    TurnPlaces(s, i, j, v, rest);
    CompleteTakes(Swap(s, i, v), i - 1, rest);
    ChoiceTakes(b, i);
  }

  lemma TurnString<T(!new)>(s: seq<T>, t: seq<T>, i: nat, j: nat, b: seq<Byte>)
    requires 0 < i < |s| == |t| && i + 1 < WORD63 && j <= i && Distinct(s) && s[j] == t[i] && |b| == Length(i)
    ensures ShuffleFrom(s, i, b) == Ending(t, true, []) <==>
            ChoiceAt(b[..Width(i)], i) == Draw(Success(j), [])
            && ShuffleFrom(Swap(s, i, j), i - 1, b[Width(i)..]) == Ending(t, true, [])
  {
    var w := Width(i);
    if ShuffleFrom(s, i, b) == Ending(t, true, []) {
      TurnDraws(s, t, i, j, b);
    }
    if ChoiceAt(b[..w], i) == Draw(Success(j), []) {
      ChoiceFromFront(b[..w], b[w..], i, j);
      assert b[..w] + b[w..] == b;
    }
  }

  // ----- All turns

  ghost predicate Splits(c: seq<Byte>, fronts: set<seq<Byte>>, tails: set<seq<Byte>>, w: nat) {
    |c| >= w && c[..w] in fronts && c[w..] in tails
  }

  lemma SplitsMore(c: seq<Byte>, fronts: set<seq<Byte>>, a: seq<Byte>, tails: set<seq<Byte>>, w: nat)
    requires a in fronts
    ensures Splits(c, fronts, tails, w) <==> Splits(c, fronts - {a}, tails, w) || Splits(c, {a}, tails, w)
    ensures !(Splits(c, fronts - {a}, tails, w) && Splits(c, {a}, tails, w))
  {
  }

  lemma OneMore(n: nat, m: nat)
    ensures (n + 1) * m == n * m + m
  {
  }

  lemma Join(others: set<seq<Byte>>, own: set<seq<Byte>>, fronts: set<seq<Byte>>, a: seq<Byte>,
             tails: set<seq<Byte>>, w: nat) returns (strings: set<seq<Byte>>)
    requires a in fronts && |others| == |fronts - {a}| * |tails| && |own| == |tails|
    requires forall c :: c in others <==> Splits(c, fronts - {a}, tails, w)
    requires forall c :: c in own <==> Splits(c, {a}, tails, w)
    ensures |strings| == |fronts| * |tails| && forall c :: c in strings <==> Splits(c, fronts, tails, w)
  {
    forall c
      ensures c in others + own <==> Splits(c, fronts, tails, w)
      ensures !(c in others && c in own)
    {
      SplitsMore(c, fronts, a, tails, w);
    }
    assert others !! own;
    strings := others + own;
    assert |fronts| == |fronts - {a}| + 1;
    OneMore(|fronts - {a}|, |tails|);
  }

  /** Strings with a front of one set and a tail of another. */
  lemma {:induction false} Concats(fronts: set<seq<Byte>>, tails: set<seq<Byte>>,
                                   w: nat) returns (strings: set<seq<Byte>>)
    requires forall a :: a in fronts ==> |a| == w
    ensures |strings| == |fronts| * |tails| && forall c :: c in strings <==> Splits(c, fronts, tails, w)
  {
    if fronts == {} {
      strings := {};
    } else {
      var a :| a in fronts;
      var others := Concats(fronts - {a}, tails, w);
      var own := WithFront(a, tails);
      strings := Join(others, own, fronts, a, tails, w);
    }
  }

  lemma FrontSplits(a: seq<Byte>, tails: set<seq<Byte>>, c: seq<Byte>)
    ensures Splits(c, {a}, tails, |a|) <==> exists b :: b in tails && a + b == c
  {
    if b :| b in tails && a + b == c {
      assert c[..|a|] == a && c[|a|..] == b;
    }
    if Splits(c, {a}, tails, |a|) {
      assert a + c[|a|..] == c;
    }
  }

  lemma WithFront(a: seq<Byte>, tails: set<seq<Byte>>) returns (strings: set<seq<Byte>>)
    ensures |strings| == |tails| && forall c :: c in strings <==> Splits(c, {a}, tails, |a|)
  {
    var f := (b: seq<Byte>) => a + b;
    forall x, y | f(x) == f(y)
      ensures x == y
    {
      assert x == f(x)[|a|..] && y == f(y)[|a|..];
    }
    strings := Image(tails, f);
    forall c
      ensures c in strings <==> Splits(c, {a}, tails, |a|)
    {
      FrontSplits(a, tails, c);
      if b :| b in tails && a + b == c {
        assert f(b) == c;
      }
    }
  }

  /** `b` is read to its end by accepted draws, and leads to `t`. */
  predicate Leads<T(==)>(s: seq<T>, t: seq<T>, i: int, b: seq<Byte>)
    requires i < |s| && i + 1 < WORD63
  {
    |b| == Length(i) && ShuffleFrom(s, i, b) == Ending(t, true, [])
  }

  predicate DrawsAtOnce(b: seq<Byte>, i: nat, j: nat)
    requires i + 1 < WORD63
  {
    |b| == Width(i) && ChoiceAt(b, i) == Draw(Success(j), [])
  }

  lemma LeadsSplits<T(!new)>(s: seq<T>, t: seq<T>, i: nat, j: nat, b: seq<Byte>)
    requires 0 < i < |s| == |t| && i + 1 < WORD63 && j <= i && Distinct(s) && s[j] == t[i]
    ensures
      var w := Width(i);
      Leads(s, t, i, b) <==> |b| >= w && DrawsAtOnce(b[..w], i, j) && Leads(Swap(s, i, j), t, i - 1, b[w..])
  {
    if |b| == Length(i) {
      TurnString(s, t, i, j, b);
    }
  }

  /** The strings that lead to `t`, from those that draw its next choice and those that lead on. */
  lemma NextStrings<T(!new)>(s: seq<T>, t: seq<T>, i: nat, j: nat, tails: set<seq<Byte>>)
      returns (strings: set<seq<Byte>>)
    requires 0 < i < |s| == |t| && i + 1 < WORD63 && j <= i && Distinct(s) && s[j] == t[i]
    requires |tails| == Ways(i - 1) && forall b :: b in tails <==> Leads(Swap(s, i, j), t, i - 1, b)
    ensures |strings| == Ways(i) && forall b :: b in strings <==> Leads(s, t, i, b)
  {
    var fronts := DrawStrings(i, j);
    strings := Concats(fronts, tails, Width(i));
    forall b
      ensures Splits(b, fronts, tails, Width(i)) <==> Leads(s, t, i, b)
    {
      LeadsSplits(s, t, i, j, b);
    }
  }

  lemma SameOrder<T>(s: seq<T>, t: seq<T>, i: int)
    requires |s| == |t| && Permutation(s, t) && -1 <= i <= 0 && i < |s| && forall k :: i < k < |s| ==> t[k] == s[k]
    ensures s == t
  {
    if i == 0 {
      var j := SharedTailElement(s, t, 0);
    }
  }

  /** The choice that puts `t`'s element in place leaves the same question one position down. */
  lemma NextOrder<T(!new)>(s: seq<T>, t: seq<T>, i: nat) returns (j: nat)
    requires 0 < i < |s| == |t| && Permutation(s, t) && Distinct(s) && forall k :: i < k < |s| ==> t[k] == s[k]
    ensures j <= i && s[j] == t[i]
    ensures
      var s' := Swap(s, i, j);
      |s'| == |t| && Permutation(s', t) && Distinct(s') && forall k :: i - 1 < k < |s'| ==> t[k] == s'[k]
  {
    j := SharedTailElement(s, t, i);
    SwapIsPermutation(s, i, j);
    SwapKeepsDistinct(s, i, j);
  }

  lemma {:induction false} OrderStrings<T(!new)>(s: seq<T>, t: seq<T>, i: int) returns (strings: set<seq<Byte>>)
    requires |s| == |t| < WORD63 && Permutation(s, t) && Distinct(s) && -1 <= i < |s|
    requires forall k :: i < k < |s| ==> t[k] == s[k]
    ensures |strings| == Ways(i) && forall b :: b in strings <==> Leads(s, t, i, b)
    decreases i + 1
  {
    if i <= 0 {
      SameOrder(s, t, i);
      strings := {[]};
    } else {
      var j := NextOrder(s, t, i);
      var tails := OrderStrings(Swap(s, i, j), t, i - 1);
      strings := NextStrings(s, t, i, j, tails);
    }
  }

  /** Each order of distinct elements comes from the same number of byte strings among those in which
    * every draw is accepted at once. */
  lemma EqualOrders<T(!new)>(s: seq<T>, t: seq<T>) returns (strings: set<seq<Byte>>)
    requires |s| == |t| < WORD63 && Distinct(s) && Permutation(s, t)
    ensures |strings| == Ways(|s| - 1)
    ensures forall b :: b in strings <==>
              |b| == Length(|s| - 1) && ShuffleFrom(s, |s| - 1, b) == Ending(t, true, [])
  {
    strings := OrderStrings(s, t, |s| - 1);
  }
}
