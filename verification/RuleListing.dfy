/**
 * What a reader of the grouped listing gets, told from the rules given to it and the search text
 * (api/src/services/group-rule-grouping.service.ts:26-72).
 */
module RuleListing {
  import opened Wrappers
  import opened Strings
  import opened GroupNames
  import opened Filters
  import opened RuleGrouping

  /** The page that is answered. */
  function Listed(t: CharTables, leq: (string, string) -> bool, rootOf: string -> string, allRules: seq<Rule>,
                  search: Option<string>, limit: nat, offset: nat): Page
  {
    var rules := Filtered(t, allRules, search);
    PageOf(Groups(leq, rootOf, rules), |rules|, limit, offset)
  }

  /** The pages answered one after the other until no more are announced. */
  function Reading(t: CharTables, leq: (string, string) -> bool, rootOf: string -> string, allRules: seq<Rule>,
                   search: Option<string>, limit: nat): seq<Page>
    requires limit > 0
  {
    var rules := Filtered(t, allRules, search);
    Walk(Groups(leq, rootOf, rules), |rules|, limit, 0)
  }

  /** The offset of the i-th page. */
  function At(offset: nat, limit: nat, i: nat): nat
    decreases i
  {
    if i == 0 then offset else At(offset + limit, limit, i - 1)
  }

  lemma {:induction false} AtIs(offset: nat, limit: nat, i: nat)
    ensures At(offset, limit, i) == offset + i * limit
    decreases i
  {
    if i > 0 {
      AtIs(offset + limit, limit, i - 1);
      assert i * limit == (i - 1) * limit + limit;
    }
  }

  lemma {:induction false} WalkPages(groups: seq<Group>, totalRules: nat, limit: nat, offset: nat, i: nat)
    requires limit > 0 && i < |Walk(groups, totalRules, limit, offset)|
    ensures Walk(groups, totalRules, limit, offset)[i] == PageOf(groups, totalRules, limit, At(offset, limit, i))
    decreases i
  {
    if i > 0 {
      WalkPages(groups, totalRules, limit, offset + limit, i - 1);
    }
  }

  // ---------------------------------------------------------------- the search

  /** No search, or a blank one, or the lower-cased value has the lower-cased, trimmed text in it. */
  ghost predicate Sought(t: CharTables, rule: Rule, search: Option<string>) {
    search.Some? && Trim(search.value, t.isSpace) != "" ==>
      exists a, b :: Lower(t, rule.value) == a + Trim(Lower(t, search.value), t.isSpace) + b
  }

  lemma ContainsParts(s: string, needle: string)
    ensures Contains(s, needle) <==> exists a, b :: s == a + needle + b
  {
    if i :| 0 <= i <= |s| && OccursAt(s, needle, i) {
      assert s == s[..i] + needle + s[i + |needle|..];
    }
    if a, b :| s == a + needle + b {
      assert OccursAt(s, needle, |a|);
    }
  }

  lemma FilteredIsSought(t: CharTables, rules: seq<Rule>, search: Option<string>, rule: Rule)
    ensures multiset(Filtered(t, rules, search))[rule] == if Sought(t, rule, search) then multiset(rules)[rule] else 0
  {
    if search.Some? && Trim(search.value, t.isSpace) != "" {
      var needle := Trim(Lower(t, search.value), t.isSpace);
      ContainsParts(Lower(t, rule.value), needle);
      OnlyCounts((r: Rule) => Contains(Lower(t, r.value), needle), rules, rule);
    }
  }

  /** The pages together list every rule that is sought as often as it is given, and no other. */
  lemma ReadingListsSought(t: CharTables, leq: (string, string) -> bool, rootOf: string -> string, allRules: seq<Rule>,
                           search: Option<string>, limit: nat, rule: Rule)
    requires TotalPreorder(leq) && limit > 0
    ensures var listed := Flatten(Joined(Reading(t, leq, rootOf, allRules, search, limit)));
            multiset(listed)[rule] == if Sought(t, rule, search) then multiset(allRules)[rule] else 0
  {
    WalkIsComplete(leq, rootOf, Filtered(t, allRules, search), limit);
    FilteredIsSought(t, allRules, search, rule);
  }

  /** Every page is the one answered at its offset, and announces how many rules and groups they list together. */
  lemma ReadingCounts(t: CharTables, leq: (string, string) -> bool, rootOf: string -> string, allRules: seq<Rule>,
                      search: Option<string>, limit: nat, i: nat)
    requires TotalPreorder(leq) && limit > 0 && i < |Reading(t, leq, rootOf, allRules, search, limit)|
    ensures var pages := Reading(t, leq, rootOf, allRules, search, limit);
            && pages[i] == Listed(t, leq, rootOf, allRules, search, limit, i * limit)
            && pages[i].totalRules == |Flatten(Joined(pages))| && pages[i].totalGroups == |Joined(pages)|
            && (pages[i].hasMore <==> i < |pages| - 1)
  {
    var rules := Filtered(t, allRules, search);
    var groups := Groups(leq, rootOf, rules);
    PageOfReading(groups, |rules|, limit, i);
    WalkIsComplete(leq, rootOf, rules, limit);
    SameSize(Flatten(groups), rules);
  }

  lemma PageOfReading(groups: seq<Group>, totalRules: nat, limit: nat, i: nat)
    requires limit > 0 && i < |Walk(groups, totalRules, limit, 0)|
    ensures var pages := Walk(groups, totalRules, limit, 0);
            && pages[i] == PageOf(groups, totalRules, limit, i * limit)
            && pages[i].totalRules == totalRules && pages[i].totalGroups == |groups|
            && (pages[i].hasMore <==> i < |pages| - 1)
  {
    WalkPages(groups, totalRules, limit, 0, i);
    AtIs(0, limit, i);
    MoreBeforeLast(groups, totalRules, limit, 0, i);
  }

  lemma SameSize<T>(a: seq<T>, b: seq<T>)
    requires multiset(a) == multiset(b)
    ensures |a| == |b|
  {
    assert |a| == |multiset(a)| == |multiset(b)| == |b|;
  }

  lemma {:induction false} MoreBeforeLast(groups: seq<Group>, totalRules: nat, limit: nat, offset: nat, i: nat)
    requires limit > 0 && i < |Walk(groups, totalRules, limit, offset)|
    ensures var pages := Walk(groups, totalRules, limit, offset); pages[i].hasMore <==> i < |pages| - 1
    decreases i
  {
    if i > 0 {
      MoreBeforeLast(groups, totalRules, limit, offset + limit, i - 1);
    }
  }

  // ---------------------------------------------------------------- the order

  /**
   * Within a group, rules whose values the locale order does not tell apart stand in the order in which
   * they were given.
   */
  lemma TiesKeepOrder(t: CharTables, leq: (string, string) -> bool, rootOf: string -> string, allRules: seq<Rule>,
                      search: Option<string>, i: nat, v: string, tied: Rule -> bool, mine: Rule -> bool)
    requires TotalPreorder(leq) && i < |Groups(leq, rootOf, Filtered(t, allRules, search))|
    requires forall r: Rule :: tied(r) <==> leq(r.value, v) && leq(v, r.value)
    requires var root := Groups(leq, rootOf, Filtered(t, allRules, search))[i].root;
             forall r: Rule :: mine(r) <==> tied(r) && rootOf(r.value) == root && Sought(t, r, search)
    ensures Only(tied, Groups(leq, rootOf, Filtered(t, allRules, search))[i].rules) == Only(mine, allRules)
  {
    var rules := Filtered(t, allRules, search);
    var group := Groups(leq, rootOf, rules)[i];
    var ofRoot := (r: Rule) => rootOf(r.value) == group.root;
    var both := (r: Rule) => tied(r) && ofRoot(r);
    ByValueIsPreorder(leq);
    assert group.rules == Sorted(ByValue(leq), RulesOf(rootOf, rules, group.root));
    SortingSorts(ByValue(leq), tied, RulesOf(rootOf, rules, group.root));
    OnlyTwice(tied, ofRoot, both, rules);
    FilteredTwice(t, allRules, search, both, mine);
  }

  lemma FilteredTwice(t: CharTables, rules: seq<Rule>, search: Option<string>, p: Rule -> bool, both: Rule -> bool)
    requires forall r: Rule :: both(r) <==> p(r) && Sought(t, r, search)
    ensures Only(p, Filtered(t, rules, search)) == Only(both, rules)
  {
    if search.Some? && Trim(search.value, t.isSpace) != "" {
      var needle := Trim(Lower(t, search.value), t.isSpace);
      forall r: Rule ensures Contains(Lower(t, r.value), needle) <==> Sought(t, r, search) {
        ContainsParts(Lower(t, r.value), needle);
      }
      OnlyTwice(p, (r: Rule) => Contains(Lower(t, r.value), needle), both, rules);
    } else {
      OnlyAlike(p, both, rules);
    }
  }
}
