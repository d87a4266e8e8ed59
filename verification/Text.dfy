/** Case folding and trimming of host names. */
module Text {

  function LowerChar(c: char): char {
    if 'A' <= c <= 'Z' then c - 'A' + 'a' else c
  }

  function ToLower(s: string): (t: string)
    ensures |t| == |s|
    ensures forall i :: 0 <= i < |s| ==> t[i] == LowerChar(s[i])
  {
    if s == "" then "" else [LowerChar(s[0])] + ToLower(s[1..])
  }

  /** `s` without its trailing dots. */
  function TrimDots(s: string): string {
    if s != "" && s[|s| - 1] == '.' then TrimDots(s[..|s| - 1]) else s
  }

  lemma ToLowerConcat(a: string, b: string)
    ensures ToLower(a + b) == ToLower(a) + ToLower(b)
  {
  }

  lemma {:induction false} TrimDotsConcat(a: string, b: string)
    requires TrimDots(b) != ""
    ensures TrimDots(a + b) == a + TrimDots(b)
  {
    if b[|b| - 1] == '.' {
      TrimDotsConcat(a, b[..|b| - 1]);
      assert (a + b)[..|a + b| - 1] == a + b[..|b| - 1];
    }
  }

  /** Dots alone, and whatever ends in a dot before them, trim away. */
  lemma {:induction false} TrimDotsAway(a: string, b: string)
    requires TrimDots(b) == ""
    ensures TrimDots(a + b) == TrimDots(a)
  {
    if b == "" {
      assert a + b == a;
    } else {
      TrimDotsAway(a, b[..|b| - 1]);
      assert (a + b)[..|a + b| - 1] == a + b[..|b| - 1];
    }
  }

  /** The same letter, in the same or the other case. */
  predicate SameLetter(c: char, d: char) {
    || c == d
    || ('A' <= c <= 'Z' && d as int == c as int + 32)
    || ('A' <= d <= 'Z' && c as int == d as int + 32)
  }

  predicate SameButCase(s: string, t: string) {
    |s| == |t| && forall i :: 0 <= i < |s| ==> SameLetter(s[i], t[i])
  }

  lemma SameCaseLower(s: string, t: string)
    requires SameButCase(s, t)
    ensures ToLower(s) == ToLower(t)
  {
    forall i | 0 <= i < |s|
      ensures ToLower(s)[i] == ToLower(t)[i]
    {
      assert SameLetter(s[i], t[i]);
    }
  }

  /** Folding changes capital letters only. */
  lemma LowerKept(s: string)
    requires forall i :: 0 <= i < |s| ==> !('A' <= s[i] <= 'Z')
    ensures ToLower(s) == s
  {
  }

  lemma {:induction false} TrimDotsSameCase(s: string, t: string)
    requires SameButCase(s, t)
    ensures SameButCase(TrimDots(s), TrimDots(t))
  {
    if s == "" {
    } else {
      assert SameLetter(s[|s| - 1], t[|t| - 1]);
      TrimDotsSameCase(s[..|s| - 1], t[..|t| - 1]);
    }
  }
}
