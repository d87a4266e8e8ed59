/**
  * The host-rule index as a value: how rules are filed under names, the normal form the filing
  * keeps, and why walking label suffixes answers like a plain scan of the rule lists.
  */
module RuleIndex {

  datatype HostRule = HostRule(name: string, domScan: seq<string>, exact: seq<string>, wildcard: seq<string>)

  type HostTable = map<string, HostRule>

  datatype RuleSet = RuleSet(ruleSetId: string, categoryId: string, source: string, enabled: bool, count: nat)

  predicate IsWildcard(rule: string) {
    |rule| >= 2 && rule[..2] == "*."
  }

  function RuleName(rule: string): string {
    if IsWildcard(rule) then rule[2..] else rule
  }

  function FindRule(table: HostTable, name: string): HostRule {
    if name in table then table[name] else HostRule(name, [], [], [])
  }

  /** Files one rule of a category. */
  function AddRule(table: HostTable, rule: string, category: string): HostTable {
    var hr := FindRule(table, RuleName(rule));
    if IsWildcard(rule) then
      if category in hr.wildcard then table
      else table[hr.name := hr.(wildcard := hr.wildcard + [category])]
    else
      if category in hr.exact then table
      else table[hr.name := hr.(exact := hr.exact + [category])]
  }

  function AddRules(table: HostTable, rules: seq<string>, category: string): HostTable {
    if rules == [] then table
    else
      var last := |rules| - 1;
      AddRule(AddRules(table, rules[..last], category), rules[last], category)
  }

  function ListOf(store: map<string, seq<string>>, ruleSetId: string): seq<string> {
    if ruleSetId in store then store[ruleSetId] else []
  }

  /** The table that filing every rule of every rule set, in order, builds from nothing. */
  function Index(sets: seq<RuleSet>, store: map<string, seq<string>>): HostTable {
    if sets == [] then map[]
    else
      var last := |sets| - 1;
      AddRules(Index(sets[..last], store), ListOf(store, sets[last].ruleSetId), sets[last].categoryId)
  }

  // ----- The normal form

  /** Category `category` lists `rule`. */
  ghost predicate Lists(sets: seq<RuleSet>, store: map<string, seq<string>>, rule: string, category: string) {
    exists i :: 0 <= i < |sets| && sets[i].categoryId == category && rule in ListOf(store, sets[i].ruleSetId)
  }

  ghost predicate NoDuplicates(s: seq<string>) {
    forall i, j :: 0 <= i < j < |s| ==> s[i] != s[j]
  }

  /** The rules filed so far, as (rule, category) pairs. */
  ghost function Filed(sets: seq<RuleSet>, store: map<string, seq<string>>): set<(string, string)> {
    if sets == [] then {}
    else
      var last := sets[|sets| - 1];
      Filed(sets[..|sets| - 1], store) + set r | r in ListOf(store, last.ruleSetId) :: (r, last.categoryId)
  }

  ghost predicate NormalEntry(name: string, hr: HostRule, filed: set<(string, string)>) {
    && hr.name == name && hr.domScan == []
    && NoDuplicates(hr.exact) && NoDuplicates(hr.wildcard)
    && (forall c :: c in hr.exact <==> (name, c) in filed && !IsWildcard(name))
    && (forall c :: c in hr.wildcard <==> ("*." + name, c) in filed)
  }

  /** Each name carries exactly the categories of the rules filed under it, each once, and a name
    * without categories has no entry. */
  ghost predicate NormalForm(table: HostTable, filed: set<(string, string)>) {
    && (forall name :: NormalEntry(name, FindRule(table, name), filed))
    && (forall name :: name in table ==> table[name].exact != [] || table[name].wildcard != [])
  }

  lemma WildcardRule(rule: string, name: string)
    ensures rule == "*." + name <==> IsWildcard(rule) && RuleName(rule) == name
    ensures IsWildcard("*." + name)
  {
    if IsWildcard(rule) {
      assert rule == rule[..2] + rule[2..];
    }
    assert ("*." + name)[..2] == "*." && ("*." + name)[2..] == name;
  }

  lemma AddRuleKeepsNormalForm(table: HostTable, filed: set<(string, string)>, rule: string, category: string)
    requires NormalForm(table, filed)
    ensures NormalForm(AddRule(table, rule, category), filed + {(rule, category)})
  {
    var after, filed' := AddRule(table, rule, category), filed + {(rule, category)};
    assert NormalEntry(RuleName(rule), FindRule(table, RuleName(rule)), filed);
    forall name
      ensures NormalEntry(name, FindRule(after, name), filed')
    {
      assert NormalEntry(name, FindRule(table, name), filed);
      WildcardRule(rule, name);
      assert FindRule(after, name) ==
        if name != RuleName(rule) then FindRule(table, name)
        else if IsWildcard(rule) then
          var hr := FindRule(table, name);
          hr.(wildcard := if category in hr.wildcard then hr.wildcard else hr.wildcard + [category])
        else
          var hr := FindRule(table, name);
          hr.(exact := if category in hr.exact then hr.exact else hr.exact + [category]);
    }
  }

  lemma {:induction false} AddRulesKeepsNormalForm(table: HostTable, filed: set<(string, string)>,
      rules: seq<string>, category: string)
    requires NormalForm(table, filed)
    ensures NormalForm(AddRules(table, rules, category), filed + set r | r in rules :: (r, category))
  {
    if rules == [] {
      assert filed + (set r | r in rules :: (r, category)) == filed;
    } else {
      var last := |rules| - 1;
      AddRulesKeepsNormalForm(table, filed, rules[..last], category);
      var filed' := filed + set r | r in rules[..last] :: (r, category);
      AddRuleKeepsNormalForm(AddRules(table, rules[..last], category), filed', rules[last], category);
      assert rules == rules[..last] + [rules[last]];
      assert filed' + {(rules[last], category)} == filed + set r | r in rules :: (r, category);
    }
  }

  lemma {:induction false} IndexIsNormalForm(sets: seq<RuleSet>, store: map<string, seq<string>>)
    ensures NormalForm(Index(sets, store), Filed(sets, store))
  {
    if sets == [] {
    } else {
      var last := |sets| - 1;
      IndexIsNormalForm(sets[..last], store);
      AddRulesKeepsNormalForm(Index(sets[..last], store), Filed(sets[..last], store),
                              ListOf(store, sets[last].ruleSetId), sets[last].categoryId);
    }
  }

  lemma {:induction false} FiledIsListed(sets: seq<RuleSet>, store: map<string, seq<string>>, rule: string,
      category: string)
    ensures (rule, category) in Filed(sets, store) <==> Lists(sets, store, rule, category)
  {
    if sets == [] {
    } else {
      var last := |sets| - 1;
      FiledIsListed(sets[..last], store, rule, category);
      assert Lists(sets, store, rule, category) <==>
        Lists(sets[..last], store, rule, category)
        || (sets[last].categoryId == category && rule in ListOf(store, sets[last].ruleSetId)) by {
        if Lists(sets[..last], store, rule, category) {
          var i :| 0 <= i < last && sets[..last][i].categoryId == category
            && rule in ListOf(store, sets[..last][i].ruleSetId);
          assert sets[i].categoryId == category;
        }
        if Lists(sets, store, rule, category) {
          var i :| 0 <= i < |sets| && sets[i].categoryId == category && rule in ListOf(store, sets[i].ruleSetId);
          if i < last {
            assert sets[..last][i] == sets[i];
          }
        }
      }
    }
  }
}
