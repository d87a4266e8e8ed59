/** Exactly when decoding a DNS name ends: the chain of names that pointers lead through. */
module NameChain {
  import opened Wrappers
  import opened Bits
  import opened NameCodec

  /** How the name at a place goes on: to no other name, to the one a pointer targets, or into a
    * pointer that the end of the buffer cuts off. */
  datatype Jump = Over | To(target: nat) | Cut

  function JumpFrom(data: seq<Byte>, pos: nat, toread: nat): (jump: Jump)
    ensures jump.To? ==> jump.target < 0x4000
    decreases |data| - pos
  {
    if pos >= |data| || data[pos] == 0 then Over
    else if toread > 0 then JumpFrom(data, pos + 1, toread - 1)
    else if data[pos] as nat >= INDIRECT then if pos + 1 < |data| then To(Target(data, pos)) else Cut
    else JumpFrom(data, pos + 1, data[pos] as nat)
  }

  /** The start of the name after `n` jumps, if there are that many. */
  function NameAfter(data: seq<Byte>, start: nat, n: nat): Option<nat>
    decreases n
  {
    if n == 0 then Some(start)
    else
      match JumpFrom(data, start, 0)
      case To(target) => NameAfter(data, target, n - 1)
      case _ => None
  }

  /** The `n`-th name is the last. */
  predicate LastName(data: seq<Byte>, start: nat, n: nat) {
    NameAfter(data, start, n).Some? && JumpFrom(data, NameAfter(data, start, n).value, 0) == Over
  }

  /** The `n`-th name is reached and ends in a pointer that is cut off. */
  predicate CutName(data: seq<Byte>, start: nat, n: nat) {
    NameAfter(data, start, n).Some? && JumpFrom(data, NameAfter(data, start, n).value, 0) == Cut
  }

  ghost predicate Repeats(data: seq<Byte>, start: nat, i: nat, j: nat) {
    i < j && NameAfter(data, start, i).Some? && NameAfter(data, start, i) == NameAfter(data, start, j)
  }

  // ----- Ends and jumps

  lemma {:induction false} EndsByJump(data: seq<Byte>, pos: nat, toread: nat, hops: nat)
    ensures
      var jump := JumpFrom(data, pos, toread);
      Ends(data, pos, toread, hops) <==> jump.Over? || (jump.To? && hops > 0 && Ends(data, jump.target, 0, hops - 1))
    decreases |data| - pos
  {
    if pos >= |data| || data[pos] == 0 {
      assert JumpFrom(data, pos, toread) == Over;
    } else if toread > 0 {
      EndsByJump(data, pos + 1, toread - 1, hops);
    } else if data[pos] as nat < INDIRECT {
      EndsByJump(data, pos + 1, data[pos] as nat, hops);
    }
  }

  lemma LastNext(data: seq<Byte>, start: nat, n: nat)
    requires JumpFrom(data, start, 0).To?
    ensures LastName(data, start, n + 1) == LastName(data, JumpFrom(data, start, 0).target, n)
  {
  }

  lemma {:induction false} EndsAtLast(data: seq<Byte>, start: nat, hops: nat)
    ensures Ends(data, start, 0, hops) <==> exists n: nat :: n <= hops && LastName(data, start, n)
    decreases hops
  {
    EndsByJump(data, start, 0, hops);
    match JumpFrom(data, start, 0)
    case Over =>
      assert LastName(data, start, 0);
    case Cut =>
      assert forall n: nat :: !LastName(data, start, n);
    case To(target) =>
      if hops > 0 {
        EndsAtLast(data, target, hops - 1);
        if n: nat :| n <= hops - 1 && LastName(data, target, n) {
          LastNext(data, start, n);
          assert LastName(data, start, n + 1);
        }
      }
      if n: nat :| n <= hops && LastName(data, start, n) {
        assert n > 0;
        LastNext(data, start, n - 1);
      }
  }

  // ----- Chains

  lemma {:induction false} NamesCompose(data: seq<Byte>, start: nat, i: nat, d: nat)
    requires NameAfter(data, start, i).Some?
    ensures NameAfter(data, start, i + d) == NameAfter(data, NameAfter(data, start, i).value, d)
    decreases i
  {
    if i == 0 {
    } else {
      NamesCompose(data, JumpFrom(data, start, 0).target, i - 1, d);
    }
  }

  /** Every name up to a reached one is reached, and jumps on. */
  lemma Reached(data: seq<Byte>, start: nat, i: nat, n: nat)
    requires NameAfter(data, start, n).Some? && i < n
    ensures NameAfter(data, start, i).Some? && JumpFrom(data, NameAfter(data, start, i).value, 0).To?
    ensures i > 0 ==> NameAfter(data, start, i).value < 0x4000
    decreases n
  {
    if i > 0 {
      Reached(data, JumpFrom(data, start, 0).target, i - 1, n - 1);
    }
    if i == 1 {
      assert NameAfter(data, start, 1) == Some(JumpFrom(data, start, 0).target);
    }
  }

  lemma LastIsSmall(data: seq<Byte>, start: nat, n: nat)
    requires NameAfter(data, start, n).Some? && n > 0
    ensures NameAfter(data, start, n).value < 0x4000
  {
    Reached(data, start, n - 1, n);
    NamesCompose(data, start, n - 1, 1);
    assert NameAfter(data, start, n) == Some(JumpFrom(data, NameAfter(data, start, n - 1).value, 0).target);
  }

  /** A chain with a last name neither repeats one nor is cut off. */
  lemma LastExcludes(data: seq<Byte>, start: nat, n: nat)
    requires LastName(data, start, n)
    ensures forall i, j :: !Repeats(data, start, i, j)
    ensures forall i :: !CutName(data, start, i)
  {
    forall i: nat, j: nat | Repeats(data, start, i, j)
      ensures false
    {
      if j > n {
        Reached(data, start, n, j);
      } else {
        NamesCompose(data, start, i, n - j);
        NamesCompose(data, start, j, n - j);
        Reached(data, start, i + n - j, n);
      }
    }
    forall i: nat | CutName(data, start, i)
      ensures false
    {
      if i > n {
        Reached(data, start, n, i);
      } else if i < n {
        Reached(data, start, i, n);
      }
    }
  }

  /** A chain that has no last name and is not cut off goes on for ever. */
  lemma {:induction false} GoesOn(data: seq<Byte>, start: nat, n: nat)
    requires forall i :: !LastName(data, start, i) && !CutName(data, start, i)
    ensures NameAfter(data, start, n).Some?
  {
    if n == 0 {
    } else {
      GoesOn(data, start, n - 1);
      NamesCompose(data, start, n - 1, 1);
      assert !LastName(data, start, n - 1) && !CutName(data, start, n - 1);
    }
  }

  lemma {:induction false} Below(n: nat) returns (s: set<nat>)
    ensures |s| == n && forall v: nat :: v in s <==> v < n
  {
    if n == 0 {
      s := {};
    } else {
      s := Below(n - 1);
      s := s + {n - 1};
    }
  }

  lemma SubsetSize<T>(a: set<T>, b: set<T>)
    requires a <= b
    ensures |a| <= |b|
  {
    assert b == a + (b - a);
  }

  /** `v` is the start of one of the first `n` names that are jumped to. */
  ghost predicate Among(data: seq<Byte>, start: nat, n: nat, v: nat) {
    exists i: nat :: 0 < i <= n && NameAfter(data, start, i) == Some(v)
  }

  lemma NotAmong(data: seq<Byte>, start: nat, n: nat)
    requires NameAfter(data, start, n).Some? && n > 0 && forall i, j :: !Repeats(data, start, i, j)
    ensures !Among(data, start, n - 1, NameAfter(data, start, n).value)
  {
    forall i: nat | 0 < i <= n - 1
      ensures NameAfter(data, start, i) != NameAfter(data, start, n)
    {
      assert !Repeats(data, start, i, n);
    }
  }

  lemma {:induction false} DistinctNames(data: seq<Byte>, start: nat, n: nat) returns (names: set<nat>)
    requires NameAfter(data, start, n).Some? && forall i, j :: !Repeats(data, start, i, j)
    ensures |names| == n && forall v :: v in names ==> v < 0x4000 && Among(data, start, n, v)
  {
    if n == 0 {
      names := {};
    } else {
      Reached(data, start, n - 1, n);
      LastIsSmall(data, start, n);
      var before := DistinctNames(data, start, n - 1);
      var v := NameAfter(data, start, n).value;
      assert Among(data, start, n, v);
      NotAmong(data, start, n);
      assert forall u :: Among(data, start, n - 1, u) ==> Among(data, start, n, u);
      names := before + {v};
    }
  }

  /** Without repetition there are at most as many jumps as there are targets. */
  lemma ChainIsShort(data: seq<Byte>, start: nat, n: nat)
    requires NameAfter(data, start, n).Some? && forall i, j :: !Repeats(data, start, i, j)
    ensures n <= 0x4000
  {
    var names := DistinctNames(data, start, n);
    var targets := Below(0x4000);
    SubsetSize(names, targets);
  }

  // ----- When decoding ends

  /** Decoding a name ends exactly when no pointer on its way is cut off by the end of the buffer and
    * no name is come to twice. */
  lemma EndsExactly(data: seq<Byte>, start: nat)
    ensures SafeName(data, start) <==>
            (forall i :: !CutName(data, start, i)) && (forall i, j :: !Repeats(data, start, i, j))
  {
    if SafeName(data, start) {
      var hops :| Ends(data, start, 0, hops);
      EndsAtLast(data, start, hops);
      var n: nat :| n <= hops && LastName(data, start, n);
      LastExcludes(data, start, n);
    } else if (forall i :: !CutName(data, start, i)) && (forall i, j :: !Repeats(data, start, i, j)) {
      forall n
        ensures !LastName(data, start, n)
      {
        if LastName(data, start, n) {
          EndsAtLast(data, start, n);
        }
      }
      GoesOn(data, start, 0x4001);
      ChainIsShort(data, start, 0x4001);
    }
  }

  /** So following as many pointers as there are targets decides it. */
  lemma EndsWithin(data: seq<Byte>, start: nat)
    ensures SafeName(data, start) <==> Ends(data, start, 0, 0x4000)
  {
    if SafeName(data, start) {
      var hops :| Ends(data, start, 0, hops);
      EndsAtLast(data, start, hops);
      var n: nat :| n <= hops && LastName(data, start, n);
      LastExcludes(data, start, n);
      ChainIsShort(data, start, n);
      EndsAtLast(data, start, 0x4000);
    }
  }

  /** Pointers that all lead back below the start of their own name are enough, as in a message
    * composed by section 4.1.4 of RFC 1035. */
  predicate PointersBack(data: seq<Byte>, start: nat)
    decreases start
  {
    match JumpFrom(data, start, 0)
    case Over => true
    case Cut => false
    case To(target) => target < start && PointersBack(data, target)
  }

  lemma {:induction false} PointersBackEnd(data: seq<Byte>, start: nat)
    requires PointersBack(data, start)
    ensures Ends(data, start, 0, start) && SafeName(data, start)
    decreases start
  {
    EndsByJump(data, start, 0, start);
    match JumpFrom(data, start, 0)
    case Over =>
    case To(target) =>
      PointersBackEnd(data, target);
      MoreHops(data, target, 0, target, start - 1);
  }
}
