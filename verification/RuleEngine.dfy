/** The rule engine over its stored tables: refresh a list, rebuild the index, look a name up. */
module RuleEngine {
  import opened Wrappers
  import opened Labels
  import opened Text
  import opened RuleIndex
  import opened RuleMatching
  import opened RuleSource

  datatype UpdateError = NotEnabled | NoSource | FetchFailed | NoSuchRuleSet

  class DNSRulesEngine {
    /** The rule sets in key order, their rule lists by id, and the host-rule index. */
    var ruleSets: seq<RuleSet>
    var rules: map<string, seq<string>>
    var hostRules: HostTable

    constructor (ruleSets: seq<RuleSet>)
      ensures this.ruleSets == ruleSets && rules == map[] && hostRules == map[]
      ensures AllSliceable()
    {
      this.ruleSets := ruleSets;
      rules := map[];
      hostRules := map[];
    }

    /** No stored rule is shorter than the two characters that indexing slices off. */
    ghost predicate AllSliceable()
      reads this
    {
      forall id, rule :: id in rules && rule in rules[id] ==> |rule| >= 2
    }

    /** `lines` is what the source's address returned, if it returned anything. */
    method UpdateRuleSet(rs: RuleSet, lines: Option<seq<string>>) returns (r: Option<UpdateError>)
      requires AllSliceable()
      modifies this`ruleSets, this`rules
      ensures AllSliceable()
      ensures
        if !rs.enabled then r == Some(NotEnabled)
        else if rs.source == "" then r == Some(NoSource)
        else if lines.None? then r == Some(FetchFailed)
        else r == if exists i :: 0 <= i < |old(ruleSets)| && old(ruleSets)[i].ruleSetId == rs.ruleSetId then None
                  else Some(NoSuchRuleSet)
      ensures
        if r.Some? && r.value != NoSuchRuleSet then rules == old(rules) && ruleSets == old(ruleSets)
        else
          && rules == old(rules)[rs.ruleSetId := Entries(lines.value)]
          && ruleSets == WithRecord(old(ruleSets), rs.(count := |Entries(lines.value)|))
    {
      if !rs.enabled {
        return Some(NotEnabled);
      }
      if rs.source == "" {
        return Some(NoSource);
      }
      if lines.None? {
        return Some(FetchFailed);
      }
      var list := ParseLines(lines.value);
      EntriesSliceable(lines.value);
      rules := rules[rs.ruleSetId := list];
      r := UpdateRecord(rs.(count := |list|));
    }

    /** Replaces the stored record of a rule set, if there is one. */
    method UpdateRecord(rs: RuleSet) returns (r: Option<UpdateError>)
      modifies this`ruleSets
      ensures r == if exists i :: 0 <= i < |old(ruleSets)| && old(ruleSets)[i].ruleSetId == rs.ruleSetId
                   then None else Some(NoSuchRuleSet)
      ensures ruleSets == WithRecord(old(ruleSets), rs)
    {
      r := Some(NoSuchRuleSet);
      ghost var before := ruleSets;
      for i := 0 to |ruleSets|
        invariant |ruleSets| == |before| && ruleSets[..i] == WithRecord(before, rs)[..i] && ruleSets[i..] == before[i..]
        invariant r == if exists k :: 0 <= k < i && before[k].ruleSetId == rs.ruleSetId then None
                       else Some(NoSuchRuleSet)
      {
        if ruleSets[i].ruleSetId == rs.ruleSetId {
          ruleSets := ruleSets[i := rs];
          r := None;
        }
      }
    }

    /** The new table depends on the rule sets and their lists alone, not on the table before. */
    method ReIndex()
      requires AllSliceable()
      modifies this`hostRules
      ensures hostRules == Index(ruleSets, rules)
      ensures NormalForm(hostRules, Filed(ruleSets, rules)) && Sliceable(Filed(ruleSets, rules))
    {
      hostRules := map[];
      for i := 0 to |ruleSets|
        invariant hostRules == Index(ruleSets[..i], rules)
      {
        var rs := ruleSets[i];
        assert ruleSets[..i + 1][..i] == ruleSets[..i];
        if rs.ruleSetId in rules {
          var list := rules[rs.ruleSetId];
          for k := 0 to |list|
            invariant hostRules == AddRules(Index(ruleSets[..i], rules), list[..k], rs.categoryId)
          {
            assert list[..k + 1][..k] == list[..k];
            FileRule(list[k], rs.categoryId);
          }
          assert list[..|list|] == list;
        }
      }
      assert ruleSets[..|ruleSets|] == ruleSets;
      IndexIsNormalForm(ruleSets, rules);
      FiledIsSliceable(ruleSets, rules);
    }

    method FileRule(rule: string, category: string)
      requires |rule| >= 2
      modifies this`hostRules
      ensures hostRules == AddRule(old(hostRules), rule, category)
    {
      var name := rule;
      var wildcard := false;
      if name[..2] == "*." {
        wildcard := true;
        name := rule[2..];
      }
      var update := false;
      var hr := HostRule(name, [], [], []);
      if name in hostRules {
        hr := hostRules[name];
      }
      if wildcard {
        if category !in hr.wildcard {
          update := true;
          hr := hr.(wildcard := hr.wildcard + [category]);
        }
      } else {
        if category !in hr.exact {
          update := true;
          hr := hr.(exact := hr.exact + [category]);
        }
      }
      if update {
        hostRules := hostRules[hr.name := hr];
      }
    }

    /** Test with the outside categorisation service switched off. */
    method Test(name: string) returns (matches: seq<string>)
      ensures NoDuplicates(matches)
      ensures forall category :: category in matches <==> Found(hostRules, name, category)
    {
      matches := [];
      var parts := Split(name, DOT);
      for i := 0 to |parts|
        invariant NoDuplicates(matches)
        invariant forall category :: category in matches <==>
                    exists j :: |parts| - i <= j < |parts| && FoundAt(hostRules, name, category, j)
      {
        var at := |parts| - i - 1;
        ghost var before := matches;
        var domain := Join(parts[at..], DOT);
        if domain != "" && domain != "." && domain in hostRules {
          var hr := hostRules[domain];
          if i == |parts| - 1 {
            matches := AppendMissing(matches, hr.exact);
            matches := AppendMissing(matches, hr.domScan);
          }
          matches := AppendMissing(matches, hr.wildcard);
        }
        assert forall category :: category in matches <==>
            category in before || FoundAt(hostRules, name, category, at);
      }
    }
  }

  /** The records with the one of `rs` replaced. */
  ghost function WithRecord(sets: seq<RuleSet>, rs: RuleSet): seq<RuleSet> {
    seq(|sets|, i requires 0 <= i < |sets| => if sets[i].ruleSetId == rs.ruleSetId then rs else sets[i])
  }

  method ParseLines(lines: seq<string>) returns (list: seq<string>)
    ensures list == Entries(lines)
  {
    list := [];
    for i := 0 to |lines|
      invariant list == Entries(lines[..i])
    {
      assert lines[..i + 1][..i] == lines[..i];
      var line := TrimSpace(lines[i]);
      if line != "" && line[0] != '#' {
        var split := SplitFields(line);
        if IsValidHostSourceRecord(split) {
          if |split| == 2 {
            list := list + [ToLower(split[1]) + "."];
          } else if |split| == 1 {
            list := list + [ToLower(split[0]) + "."];
          }
        }
      }
    }
    assert lines[..|lines|] == lines;
  }

  ghost predicate StoredSliceable(store: map<string, seq<string>>) {
    forall id, rule :: id in store && rule in store[id] ==> |rule| >= 2
  }

  /** A scan of all lists: some rule of the category matches. */
  ghost predicate PlainScan(sets: seq<RuleSet>, store: map<string, seq<string>>, name: string, category: string) {
    exists rule :: Lists(sets, store, rule, category) && PlainMatch(rule, name)
  }

  /** After indexing, a look-up finds exactly the categories of the matching rules other than "*." and
    * "*..". */
  lemma IndexedLookup(sets: seq<RuleSet>, store: map<string, seq<string>>, name: string, category: string)
    requires StoredSliceable(store)
    ensures Found(Index(sets, store), name, category) <==>
            exists rule :: Lists(sets, store, rule, category) && PlainMatch(rule, name)
                           && rule != "*." && rule != "*.."
  {
    var filed := Filed(sets, store);
    IndexIsNormalForm(sets, store);
    FiledIsSliceable(sets, store);
    LookupIsUsableScan(Index(sets, store), filed, name, category);
    forall rule
      ensures (rule, category) in filed <==> Lists(sets, store, rule, category)
      ensures RuleMatches(rule, name) <==> PlainMatch(rule, name)
      ensures Usable(rule) <==> rule != "*." && rule != "*.."
    {
      FiledIsListed(sets, store, rule, category);
      MatchesPlainly(rule, name);
    }
  }

  lemma FiledScan(sets: seq<RuleSet>, store: map<string, seq<string>>, name: string, category: string)
    ensures Scan(Filed(sets, store), name, category) <==> PlainScan(sets, store, name, category)
  {
    forall rule
      ensures (rule, category) in Filed(sets, store) <==> Lists(sets, store, rule, category)
      ensures RuleMatches(rule, name) <==> PlainMatch(rule, name)
    {
      FiledIsListed(sets, store, rule, category);
      MatchesPlainly(rule, name);
    }
  }

  ghost predicate AllListedUsable(sets: seq<RuleSet>, store: map<string, seq<string>>) {
    forall rule, category :: Lists(sets, store, rule, category) ==> rule != "*." && rule != "*.."
  }

  lemma AllUsableListed(sets: seq<RuleSet>, store: map<string, seq<string>>)
    ensures AllUsable(Filed(sets, store)) <==> AllListedUsable(sets, store)
  {
    forall rule, category
      ensures (rule, category) in Filed(sets, store) <==> Lists(sets, store, rule, category)
      ensures Usable(rule) <==> rule != "*." && rule != "*.."
    {
      FiledIsListed(sets, store, rule, category);
      MatchesPlainly(rule, "");
    }
    if AllUsable(Filed(sets, store)) {
      forall rule, category | Lists(sets, store, rule, category)
        ensures rule != "*." && rule != "*.."
      {
        assert Usable((rule, category).0);
      }
    }
  }

  /** ... and a plain scan of the lists agrees on every name exactly when no list has "*." or "*..". */
  lemma IndexAgreesExactly(sets: seq<RuleSet>, store: map<string, seq<string>>)
    requires StoredSliceable(store)
    ensures
      (forall name, category :: Found(Index(sets, store), name, category) <==> PlainScan(sets, store, name, category))
      <==> AllListedUsable(sets, store)
  {
    IndexIsNormalForm(sets, store);
    FiledIsSliceable(sets, store);
    AgreementExactly(Index(sets, store), Filed(sets, store));
    AllUsableListed(sets, store);
    forall name, category
      ensures Scan(Filed(sets, store), name, category) <==> PlainScan(sets, store, name, category)
    {
      FiledScan(sets, store, name, category);
    }
  }

  lemma FiledIsSliceable(sets: seq<RuleSet>, store: map<string, seq<string>>)
    requires forall id, rule :: id in store && rule in store[id] ==> |rule| >= 2
    ensures Sliceable(Filed(sets, store))
  {
    forall e | e in Filed(sets, store)
      ensures |e.0| >= 2
    {
      FiledIsListed(sets, store, e.0, e.1);
    }
  }

  /** Appends the categories not there yet, in order. */
  method AppendMissing(matches: seq<string>, categories: seq<string>) returns (r: seq<string>)
    requires NoDuplicates(matches)
    ensures matches <= r && NoDuplicates(r)
    ensures forall c :: c in r <==> c in matches || c in categories
  {
    r := matches;
    for i := 0 to |categories|
      invariant matches <= r && NoDuplicates(r)
      invariant forall c :: c in r <==> c in matches || c in categories[..i]
    {
      if categories[i] !in r {
        r := r + [categories[i]];
      }
    }
  }
}
