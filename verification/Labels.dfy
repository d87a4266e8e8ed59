/**
  * Splitting a name at a separator and joining it again, and what a run of trailing labels is in
  * terms of string suffixes.
  */
module Labels {

  function Split<T(==)>(s: seq<T>, sep: T): (parts: seq<seq<T>>)
    ensures |parts| >= 1
  {
    if s == [] then [[]]
    else
      var rest := Split(s[1..], sep);
      if s[0] == sep then [[]] + rest else [[s[0]] + rest[0]] + rest[1..]
  }

  function Join<T>(parts: seq<seq<T>>, sep: T): seq<T> {
    if parts == [] then []
    else if |parts| == 1 then parts[0]
    else parts[0] + [sep] + Join(parts[1..], sep)
  }

  predicate HasSuffix<T(==)>(s: seq<T>, t: seq<T>) {
    |t| <= |s| && s[|s| - |t|..] == t
  }

  ghost predicate Free<T>(parts: seq<seq<T>>, sep: T) {
    forall i :: 0 <= i < |parts| ==> sep !in parts[i]
  }

  lemma {:induction false} JoinSplit<T>(s: seq<T>, sep: T)
    ensures Join(Split(s, sep), sep) == s
  {
    if s == [] {
    } else {
      JoinSplit(s[1..], sep);
      var rest := Split(s[1..], sep);
      if s[0] == sep {
        assert ([[]] + rest)[1..] == rest;
        assert s == [sep] + s[1..];
      } else {
        JoinPrepend(s[0], rest, sep);
      }
    }
  }

  lemma JoinPrepend<T>(x: T, parts: seq<seq<T>>, sep: T)
    requires |parts| >= 1
    ensures Join([[x] + parts[0]] + parts[1..], sep) == [x] + Join(parts, sep)
  {
    var head, tail := parts[0], parts[1..];
    var longer := [[x] + head] + tail;
    assert longer[0] == [x] + head && longer[1..] == tail;
    if tail != [] {
      PrependConcat(x, head, [sep], Join(tail, sep));
    }
  }

  lemma PrependConcat<T>(x: T, a: seq<T>, b: seq<T>, c: seq<T>)
    ensures ([x] + a) + b + c == [x] + (a + b + c)
  {
  }

  lemma {:induction false} SplitFree<T>(s: seq<T>, sep: T)
    ensures Free(Split(s, sep), sep)
  {
    if s == [] {
    } else {
      SplitFree(s[1..], sep);
    }
  }

  lemma {:induction false} SplitOne<T>(part: seq<T>, sep: T)
    requires sep !in part
    ensures Split(part, sep) == [part]
  {
    if part == [] {
    } else {
      SplitOne(part[1..], sep);
      assert part == [part[0]] + part[1..];
    }
  }

  lemma {:induction false} SplitFirst<T>(part: seq<T>, rest: seq<T>, sep: T)
    requires sep !in part
    ensures Split(part + [sep] + rest, sep) == [part] + Split(rest, sep)
  {
    var s := part + [sep] + rest;
    if part == [] {
      assert s[1..] == rest;
    } else {
      SplitFirst(part[1..], rest, sep);
      assert s[1..] == part[1..] + [sep] + rest;
      assert part == [part[0]] + part[1..];
    }
  }

  lemma {:induction false} SplitJoin<T>(parts: seq<seq<T>>, sep: T)
    requires |parts| >= 1 && Free(parts, sep)
    ensures Split(Join(parts, sep), sep) == parts
  {
    if |parts| == 1 {
      SplitOne(parts[0], sep);
    } else {
      SplitJoin(parts[1..], sep);
      SplitFirst(parts[0], Join(parts[1..], sep), sep);
    }
  }

  /** `d` is the join of a proper run of trailing labels of `s`. */
  ghost predicate IsLabelTail<T>(s: seq<T>, sep: T, d: seq<T>) {
    exists j :: 1 <= j < |Split(s, sep)| && Join(Split(s, sep)[j..], sep) == d
  }

  /** A proper run of trailing labels is exactly a suffix that follows a separator. */
  lemma {:induction false} LabelTailIsSuffix<T>(s: seq<T>, sep: T, d: seq<T>)
    ensures IsLabelTail(s, sep, d) <==> HasSuffix(s, [sep] + d)
  {
    if s == [] {
    } else {
      var t := s[1..];
      var parts, rest := Split(s, sep), Split(t, sep);
      LabelTailIsSuffix(t, sep, d);
      JoinSplit(t, sep);
      if s[0] == sep {
        assert forall j :: 1 <= j < |parts| ==> parts[j..] == rest[j - 1..];
        assert rest[0..] == rest;
        assert parts[1..] == rest;
        assert HasSuffix(s, [sep] + d) <==> t == d || HasSuffix(t, [sep] + d) by {
          SuffixAfterFirst(s, [sep] + d);
        }
        if IsLabelTail(t, sep, d) {
          var j :| 1 <= j < |rest| && Join(rest[j..], sep) == d;
          assert parts[j + 1..] == rest[j..];
        }
        if t == d {
          assert Join(parts[1..], sep) == d;
        }
        if IsLabelTail(s, sep, d) {
          var j :| 1 <= j < |parts| && Join(parts[j..], sep) == d;
          assert parts[j..] == rest[j - 1..];
          assert j == 1 ==> d == t;
        }
      } else {
        assert forall j :: 1 <= j < |parts| ==> parts[j..] == rest[j..];
        SuffixAfterFirst(s, [sep] + d);
      }
    }
  }

  lemma SuffixAfterFirst<T>(s: seq<T>, d: seq<T>)
    requires s != [] && d != []
    ensures HasSuffix(s, d) <==> s == d || HasSuffix(s[1..], d)
    ensures s == d <==> s[0] == d[0] && s[1..] == d[1..]
  {
    if |d| <= |s[1..]| {
      assert s[1..][|s[1..]| - |d|..] == s[|s| - |d|..];
    }
    assert s == [s[0]] + s[1..] && d == [d[0]] + d[1..];
  }
}
