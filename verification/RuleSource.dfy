/** The line format of downloaded rule lists, and which entries its lines turn into. */
module RuleSource {
  import opened Wrappers
  import opened Text
  import opened RuleIndex
  import opened RuleMatching

  /** White space of the field separator pattern. */
  predicate IsSeparator(c: char) {
    c == ' ' || c == '\t' || c == '\n' || c == '\r' || c == '\U{C}'
  }

  /** White space in the Unicode sense, which trimming removes. */
  predicate IsSpace(c: char) {
    var u := c as int;
    || IsSeparator(c) || u == 0xB || u == 0x85 || u == 0xA0 || u == 0x1680 || 0x2000 <= u <= 0x200A
    || u == 0x2028 || u == 0x2029 || u == 0x202F || u == 0x205F || u == 0x3000
  }

  function TrimLeft(s: string): string {
    if s != "" && IsSpace(s[0]) then TrimLeft(s[1..]) else s
  }

  function TrimRight(s: string): string {
    if s != "" && IsSpace(s[|s| - 1]) then TrimRight(s[..|s| - 1]) else s
  }

  function TrimSpace(s: string): string {
    TrimRight(TrimLeft(s))
  }

  function SkipSeparators(s: string): (rest: string)
    ensures |rest| <= |s|
  {
    if s != "" && IsSeparator(s[0]) then SkipSeparators(s[1..]) else s
  }

  /** Splitting at every maximal run of separators. */
  function SplitFields(s: string): (fields: seq<string>)
    ensures |fields| >= 1
    decreases |s|
  {
    if s == "" then [""]
    else if IsSeparator(s[0]) then [""] + SplitFields(SkipSeparators(s[1..]))
    else
      var rest := SplitFields(s[1..]);
      [[s[0]] + rest[0]] + rest[1..]
  }

  predicate IsValidHostSourceRecord(split: seq<string>) {
    if |split| == 0 || |split| > 2 then false
    else if |split| == 2 then split[0] == "0.0.0.0" && split[1] != "0.0.0.0"
    else true
  }

  /** The host a line names: its only field, or the second one after "0.0.0.0". */
  function HostOf(line: string): Option<string> {
    var t := TrimSpace(line);
    if t == "" || t[0] == '#' then None
    else
      var split := SplitFields(t);
      if !IsValidHostSourceRecord(split) then None else Some(split[|split| - 1])
  }

  function Entries(lines: seq<string>): seq<string> {
    if lines == [] then []
    else
      var last := |lines| - 1;
      var entry := HostOf(lines[last]);
      Entries(lines[..last]) + if entry.Some? then [ToLower(entry.value) + "."] else []
  }

  // ----- What the entries look like

  lemma {:induction false} TrimRightEnds(s: string)
    ensures
      var t := TrimRight(s);
      t != "" ==> !IsSpace(t[|t| - 1]) && s != "" && t[0] == s[0]
  {
    if s != "" && IsSpace(s[|s| - 1]) {
      TrimRightEnds(s[..|s| - 1]);
    }
  }

  lemma {:induction false} TrimLeftEnds(s: string)
    ensures TrimLeft(s) != "" ==> !IsSpace(TrimLeft(s)[0])
  {
    if s != "" && IsSpace(s[0]) {
      TrimLeftEnds(s[1..]);
    }
  }

  lemma {:induction false} SkipKeepsEnd(s: string)
    requires s != "" && !IsSeparator(s[|s| - 1])
    ensures
      var t := SkipSeparators(s);
      t != "" && !IsSeparator(t[0]) && t[|t| - 1] == s[|s| - 1]
  {
    if IsSeparator(s[0]) {
      SkipKeepsEnd(s[1..]);
    }
  }

  /** A text that ends outside white space has only non-empty fields, the first one apart. */
  lemma {:induction false} FieldsNotEmpty(s: string)
    requires s != "" && !IsSeparator(s[|s| - 1])
    ensures forall i :: 1 <= i < |SplitFields(s)| ==> SplitFields(s)[i] != ""
    ensures !IsSeparator(s[0]) ==> SplitFields(s)[0] != ""
    decreases |s|
  {
    if IsSeparator(s[0]) {
      SkipKeepsEnd(s[1..]);
      FieldsNotEmpty(SkipSeparators(s[1..]));
    } else if |s| > 1 {
      FieldsNotEmpty(s[1..]);
    }
  }

  lemma HostNotEmpty(line: string)
    ensures HostOf(line).Some? ==> HostOf(line).value != ""
  {
    TrimLeftEnds(line);
    TrimRightEnds(TrimLeft(line));
    if TrimSpace(line) != "" {
      FieldsNotEmpty(TrimSpace(line));
    }
  }

  /** Every entry is a lower-case host with a final dot: long enough to slice, and a wildcard over
    * nothing or over the root only for the hosts "*" and "*.". */
  lemma EntryShape(line: string)
    requires HostOf(line).Some?
    ensures
      var host := HostOf(line).value;
      var entry := ToLower(host) + ".";
      |entry| >= 2 && (Usable(entry) <==> host != "*" && host != "*.")
  {
    HostNotEmpty(line);
    var host := HostOf(line).value;
    var entry := ToLower(host) + ".";
    if IsWildcard(entry) {
      assert entry[0] == '*' && entry[1] == '.';
      assert RuleName(entry) == entry[2..];
      assert LowerChar(host[0]) == '*';
      if |host| == 1 {
        assert host == "*" && entry[2..] == "";
      } else if |host| == 2 {
        assert LowerChar(host[1]) == '.';
        assert host == "*." && entry[2..] == ".";
      } else {
        assert |entry[2..]| >= 2;
      }
    }
    if host == "*" || host == "*." {
      assert IsWildcard(entry);
    }
  }

  /** The entry that a line yields. */
  predicate Yields(line: string, entry: string) {
    HostOf(line).Some? && entry == ToLower(HostOf(line).value) + "."
  }

  lemma LastEntry(lines: seq<string>, entry: string)
    requires lines != []
    ensures entry in Entries(lines) <==>
            entry in Entries(lines[..|lines| - 1]) || Yields(lines[|lines| - 1], entry)
  {
  }

  lemma {:induction false} EntriesAreHosts(lines: seq<string>, entry: string)
    ensures entry in Entries(lines) <==> exists line :: line in lines && Yields(line, entry)
  {
    if lines == [] {
    } else {
      var last := |lines| - 1;
      EntriesAreHosts(lines[..last], entry);
      LastEntry(lines, entry);
      assert forall line :: line in lines <==> line in lines[..last] || line == lines[last] by {
        assert lines == lines[..last] + [lines[last]];
      }
    }
  }

  lemma EntryOfLine(line: string)
    ensures Entries([line]) == if HostOf(line).Some? then [ToLower(HostOf(line).value) + "."] else []
  {
    assert [line][..0] == [];
  }

  lemma NextEntry(lines: seq<string>, line: string)
    ensures Entries(lines + [line]) == Entries(lines) + Entries([line])
  {
    EntryOfLine(line);
    assert (lines + [line])[..|lines|] == lines;
  }

  /** Entries come in the order of their lines. */
  lemma {:induction false} EntriesInOrder(a: seq<string>, b: seq<string>)
    ensures Entries(a + b) == Entries(a) + Entries(b)
    decreases |b|
  {
    if b == [] {
      assert a + b == a;
    } else {
      var init, last := b[..|b| - 1], b[|b| - 1];
      EntriesInOrder(a, init);
      NextEntry(a + init, last);
      NextEntry(init, last);
      LastApart(a, b);
      Associate(Entries(a), Entries(init), Entries([last]));
    }
  }

  lemma LastApart(a: seq<string>, b: seq<string>)
    requires b != []
    ensures b == b[..|b| - 1] + [b[|b| - 1]] && a + b == (a + b[..|b| - 1]) + [b[|b| - 1]]
  {
  }

  lemma Associate(a: seq<string>, b: seq<string>, c: seq<string>)
    ensures (a + b) + c == a + (b + c)
  {
  }

  lemma EntriesSliceable(lines: seq<string>)
    ensures forall entry :: entry in Entries(lines) ==> |entry| >= 2
  {
    forall entry | entry in Entries(lines)
      ensures |entry| >= 2
    {
      EntriesAreHosts(lines, entry);
      var line :| line in lines && Yields(line, entry);
      EntryShape(line);
    }
  }

  // ----- Which lines name a host

  predicate AllSpaces(s: string) {
    forall i :: 0 <= i < |s| ==> IsSpace(s[i])
  }

  predicate NoSpaces(s: string) {
    forall i :: 0 <= i < |s| ==> !IsSpace(s[i])
  }

  lemma {:induction false} TrimLeftSpaces(pad: string, s: string)
    requires AllSpaces(pad) && s != "" && !IsSpace(s[0])
    ensures TrimLeft(pad + s) == s
  {
    if pad == "" {
      assert pad + s == s;
    } else {
      TrimLeftSpaces(pad[1..], s);
      assert (pad + s)[1..] == pad[1..] + s;
    }
  }

  lemma {:induction false} TrimRightSpaces(s: string, pad: string)
    requires AllSpaces(pad) && s != "" && !IsSpace(s[|s| - 1])
    ensures TrimRight(s + pad) == s
  {
    if pad == "" {
      assert s + pad == s;
    } else {
      TrimRightSpaces(s, pad[..|pad| - 1]);
      assert (s + pad)[..|s + pad| - 1] == s + pad[..|pad| - 1];
    }
  }

  /** Surrounding white space is trimmed. */
  lemma TrimPadded(before: string, s: string, after: string)
    requires AllSpaces(before) && AllSpaces(after) && s != "" && !IsSpace(s[0]) && !IsSpace(s[|s| - 1])
    ensures TrimSpace(before + s + after) == s
  {
    assert before + s + after == before + (s + after);
    TrimLeftSpaces(before, s + after);
    TrimRightSpaces(s, after);
  }

  lemma {:induction false} OneField(s: string)
    requires NoSpaces(s)
    ensures SplitFields(s) == [s]
  {
    if s != "" {
      OneField(s[1..]);
      assert s == [s[0]] + s[1..];
    }
  }

  lemma {:induction false} SkipAll(gap: string, s: string)
    requires (forall i :: 0 <= i < |gap| ==> IsSeparator(gap[i])) && s != "" && !IsSeparator(s[0])
    ensures SkipSeparators(gap + s) == s
  {
    if gap == "" {
      assert gap + s == s;
    } else {
      SkipAll(gap[1..], s);
      assert (gap + s)[1..] == gap[1..] + s;
    }
  }

  /** Blanks, tabs, line ends and form feeds between words. */
  predicate IsGap(gap: string) {
    gap != "" && forall i :: 0 <= i < |gap| ==> gap[i] in [' ', '\t', '\n', '\U{C}', '\r']
  }

  /** Of the ASCII characters, those and the vertical tab are trimmed; words may hold any others. */
  lemma AsciiSpaces(c: char)
    requires c as int < 0x80
    ensures IsSpace(c) <==> c in [' ', '\t', '\n', '\U{B}', '\U{C}', '\r']
  {
  }

  lemma GapThenFields(gap: string, rest: string)
    requires IsGap(gap) && rest != "" && !IsSeparator(rest[0])
    ensures SplitFields(gap + rest) == [""] + SplitFields(rest)
  {
    assert (gap + rest)[1..] == gap[1..] + rest;
    SkipAll(gap[1..], rest);
  }

  lemma NextCharacter(c: char, s: string, first: string, others: seq<string>)
    requires !IsSeparator(c) && SplitFields(s) == [first] + others
    ensures SplitFields([c] + s) == [[c] + first] + others
  {
    assert ([c] + s)[1..] == s;
  }

  /** A word and a gap make one field before those of the rest. */
  lemma {:induction false} WordThenFields(a: string, gap: string, rest: string)
    requires NoSpaces(a) && IsGap(gap) && rest != "" && !IsSeparator(rest[0])
    ensures SplitFields(a + gap + rest) == [a] + SplitFields(rest)
    decreases |a|
  {
    if a == "" {
      assert a + gap + rest == gap + rest;
      GapThenFields(gap, rest);
    } else {
      WordThenFields(a[1..], gap, rest);
      NextCharacter(a[0], a[1..] + gap + rest, a[1..], SplitFields(rest));
      assert a + gap + rest == [a[0]] + (a[1..] + gap + rest);
      assert a == [a[0]] + a[1..];
    }
  }

  /** A line with one word that is no comment names that word. */
  lemma BareHost(before: string, host: string, after: string)
    requires AllSpaces(before) && AllSpaces(after) && NoSpaces(host) && host != ""
    ensures HostOf(before + host + after) == if host[0] == '#' then None else Some(host)
  {
    TrimPadded(before, host, after);
    OneField(host);
  }

  /** A line with two words names the second one, if the first is "0.0.0.0" and the second is not. */
  lemma HostsFileLine(before: string, a: string, gap: string, host: string, after: string)
    requires AllSpaces(before) && AllSpaces(after) && NoSpaces(a) && NoSpaces(host) && a != "" && host != ""
    requires IsGap(gap)
    ensures HostOf(before + (a + gap + host) + after)
         == if a == "0.0.0.0" && host != "0.0.0.0" then Some(host) else None
  {
    TrimPadded(before, a + gap + host, after);
    WordThenFields(a, gap, host);
    OneField(host);
  }

  /** A line with three words or more names no host. */
  lemma ManyWords(before: string, a: string, gap: string, b: string, gap': string, rest: string, after: string)
    requires AllSpaces(before) && AllSpaces(after) && NoSpaces(a) && NoSpaces(b) && a != "" && b != ""
    requires IsGap(gap) && IsGap(gap') && rest != "" && !IsSpace(rest[0]) && !IsSpace(rest[|rest| - 1])
    ensures HostOf(before + (a + gap + (b + gap' + rest)) + after) == None
  {
    TrimPadded(before, a + gap + (b + gap' + rest), after);
    WordThenFields(a, gap, b + gap' + rest);
    WordThenFields(b, gap', rest);
  }

  lemma {:induction false} TrimRightKeepsFirst(s: string)
    requires s != "" && !IsSpace(s[0])
    ensures TrimRight(s) != "" && TrimRight(s)[0] == s[0]
  {
    if |s| > 1 && IsSpace(s[|s| - 1]) {
      TrimRightKeepsFirst(s[..|s| - 1]);
    }
  }

  /** A comment names no host, whatever is in it. */
  lemma CommentLine(before: string, comment: string)
    requires AllSpaces(before)
    ensures HostOf(before + "#" + comment) == None
  {
    assert before + "#" + comment == before + ("#" + comment);
    TrimLeftSpaces(before, "#" + comment);
    TrimRightKeepsFirst("#" + comment);
  }

  lemma {:induction false} BlankLine(blank: string)
    requires AllSpaces(blank)
    ensures TrimLeft(blank) == "" && HostOf(blank) == None
  {
    if blank == "" {
    } else {
      BlankLine(blank[1..]);
    }
  }
}
