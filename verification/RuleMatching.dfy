/** Looking a name up label by label finds what a scan of all rules would, and exactly when. */
module RuleMatching {
  import opened Labels
  import opened RuleIndex

  const DOT: char := '.'

  // ----- The look-up

  function Domain(name: string, j: nat): string
    requires j < |Split(name, DOT)|
  {
    Join(Split(name, DOT)[j..], DOT)
  }

  predicate LookedUp(domain: string) {
    domain != "" && domain != "."
  }

  /** The entry at the `j`-th label contributes `category`: its wildcard list always, its other
    * lists only for the whole name. */
  predicate FoundAt(table: HostTable, name: string, category: string, j: nat)
    requires j < |Split(name, DOT)|
  {
    var d := Domain(name, j);
    && LookedUp(d) && d in table
    && (category in table[d].wildcard || (j == 0 && (category in table[d].exact || category in table[d].domScan)))
  }

  ghost predicate Found(table: HostTable, name: string, category: string) {
    exists j :: 0 <= j < |Split(name, DOT)| && FoundAt(table, name, category, j)
  }

  // ----- The plain scan

  predicate RuleMatches(rule: string, name: string) {
    rule == name
    || (IsWildcard(rule) && (name == RuleName(rule) || HasSuffix(name, [DOT] + RuleName(rule))))
  }

  /** A wildcard over nothing, or over the root alone, is never looked up. */
  predicate Usable(rule: string) {
    IsWildcard(rule) ==> LookedUp(RuleName(rule))
  }

  /** The same in the text of the rule: itself, or "*." before a domain that the name is or is under. */
  ghost predicate PlainMatch(rule: string, name: string) {
    rule == name || exists d :: rule == "*." + d && (name == d || HasSuffix(name, "." + d))
  }

  lemma MatchesPlainly(rule: string, name: string)
    ensures RuleMatches(rule, name) <==> PlainMatch(rule, name)
    ensures Usable(rule) <==> rule != "*." && rule != "*.."
  {
    forall d: string
      ensures rule == "*." + d <==> IsWildcard(rule) && RuleName(rule) == d
    {
      WildcardRule(rule, d);
    }
    assert "*." + "" == "*." && "*." + "." == "*..";
    if RuleMatches(rule, name) && rule != name {
      assert rule == "*." + RuleName(rule);
    }
  }

  ghost predicate Scan(filed: set<(string, string)>, name: string, category: string) {
    exists rule :: (rule, category) in filed && RuleMatches(rule, name)
  }

  ghost predicate UsableScan(filed: set<(string, string)>, name: string, category: string) {
    exists rule :: (rule, category) in filed && RuleMatches(rule, name) && Usable(rule)
  }

  ghost predicate AllUsable(filed: set<(string, string)>) {
    forall e :: e in filed ==> Usable(e.0)
  }

  /** No rule is shorter than the two characters the index slices off. */
  ghost predicate Sliceable(filed: set<(string, string)>) {
    forall e :: e in filed ==> |e.0| >= 2
  }

  // ----- Label suffixes are string suffixes

  lemma DomainIsTail(name: string, d: string)
    ensures (exists j :: 0 <= j < |Split(name, DOT)| && Domain(name, j) == d)
       <==> name == d || HasSuffix(name, [DOT] + d)
  {
    WholeName(name);
    LabelTailIsSuffix(name, DOT, d);
    if IsLabelTail(name, DOT, d) {
      var j :| 1 <= j < |Split(name, DOT)| && Join(Split(name, DOT)[j..], DOT) == d;
      assert Domain(name, j) == d;
    }
    if name == d {
      assert Domain(name, 0) == d;
    }
    if exists j :: 0 <= j < |Split(name, DOT)| && Domain(name, j) == d {
      var j :| 0 <= j < |Split(name, DOT)| && Domain(name, j) == d;
      assert j > 0 ==> IsLabelTail(name, DOT, d);
    }
  }

  lemma WholeName(name: string)
    ensures Domain(name, 0) == name
  {
    assert Split(name, DOT)[0..] == Split(name, DOT);
    JoinSplit(name, DOT);
  }

  // ----- Agreement

  /** What a look-up finds in a table in normal form comes from a usable matching rule. */
  lemma FoundBySomeRule(table: HostTable, filed: set<(string, string)>, name: string, category: string, j: nat)
    requires NormalForm(table, filed) && j < |Split(name, DOT)| && FoundAt(table, name, category, j)
    ensures UsableScan(filed, name, category)
  {
    var d := Domain(name, j);
    assert NormalEntry(d, FindRule(table, d), filed);
    DomainIsTail(name, d);
    WildcardRule("*." + d, d);
    WholeName(name);
    if category in table[d].wildcard {
      assert ("*." + d, category) in filed && RuleMatches("*." + d, name) && Usable("*." + d);
    } else {
      assert (name, category) in filed && RuleMatches(name, name) && Usable(name);
    }
  }

  lemma FoundThroughRule(table: HostTable, filed: set<(string, string)>, rule: string, name: string, category: string)
    requires NormalForm(table, filed) && Sliceable(filed)
    requires (rule, category) in filed && RuleMatches(rule, name) && Usable(rule)
    ensures Found(table, name, category)
  {
    WholeName(name);
    if IsWildcard(rule) {
      var d := RuleName(rule);
      WildcardRule(rule, d);
      assert NormalEntry(d, FindRule(table, d), filed);
      assert name == d || HasSuffix(name, [DOT] + d) by {
        if rule == name {
          assert name[|name| - |[DOT] + d|..] == [DOT] + d;
        }
      }
      DomainIsTail(name, d);
      var j :| 0 <= j < |Split(name, DOT)| && Domain(name, j) == d;
      assert FoundAt(table, name, category, j);
    } else {
      assert NormalEntry(name, FindRule(table, name), filed);
      assert FoundAt(table, name, category, 0);
    }
  }

  /** Looking up label suffixes is scanning all usable rules. */
  lemma LookupIsUsableScan(table: HostTable, filed: set<(string, string)>, name: string, category: string)
    requires NormalForm(table, filed) && Sliceable(filed)
    ensures Found(table, name, category) <==> UsableScan(filed, name, category)
  {
    if Found(table, name, category) {
      var j :| 0 <= j < |Split(name, DOT)| && FoundAt(table, name, category, j);
      FoundBySomeRule(table, filed, name, category, j);
    }
    if UsableScan(filed, name, category) {
      var rule :| (rule, category) in filed && RuleMatches(rule, name) && Usable(rule);
      FoundThroughRule(table, filed, rule, name, category);
    }
  }

  ghost predicate AgreesEverywhere(table: HostTable, filed: set<(string, string)>) {
    forall name, category :: Found(table, name, category) <==> Scan(filed, name, category)
  }

  /** The look-up agrees with the plain scan on every name exactly when no rule is a wildcard over
    * "" or ".". */
  lemma AgreementExactly(table: HostTable, filed: set<(string, string)>)
    requires NormalForm(table, filed) && Sliceable(filed)
    ensures AgreesEverywhere(table, filed) <==> AllUsable(filed)
  {
    if AllUsable(filed) {
      forall name, category
        ensures Found(table, name, category) <==> Scan(filed, name, category)
      {
        LookupIsUsableScan(table, filed, name, category);
        if Scan(filed, name, category) {
          var rule :| (rule, category) in filed && RuleMatches(rule, name);
          assert Usable((rule, category).0);
        }
      }
    } else {
      var e :| e in filed && !Usable(e.0);
      var name := RuleName(e.0);
      assert RuleMatches(e.0, name) && (e.0, e.1) in filed;
      assert Scan(filed, name, e.1);
      NothingAtTheRoot(table, name, e.1);
    }
  }

  lemma NothingAtTheRoot(table: HostTable, name: string, category: string)
    requires !LookedUp(name)
    ensures !Found(table, name, category)
  {
    if name == "." {
      assert name[1..] == "";
      assert Split(name, DOT) == ["", ""];
    }
    forall j | 0 <= j < |Split(name, DOT)|
      ensures !LookedUp(Domain(name, j))
    {
      WholeName(name);
    }
  }
}
