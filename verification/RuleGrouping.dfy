/**
 * Rules grouped by root domain and read page by page (api/src/services/group-rule-grouping.service.ts).
 *
 * The root-domain function and the locale order are parameters; the locale order is any total
 * preorder, and sorting is stable, as the runtime's is.
 */
module RuleGrouping {
  import opened Wrappers
  import opened Strings
  import opened GroupNames
  import opened Filters

  datatype Kind = Whitelist | BlockedSubdomain | BlockedPath | AllowedPath

  datatype Rule = Rule(id: string, value: string, kind: Kind)

  datatype Status = Mixed | Blocked | Allowed

  datatype Group = Group(root: string, rules: seq<Rule>, status: Status)

  datatype Page = Page(groups: seq<Group>, totalGroups: nat, totalRules: nat, hasMore: bool)

  // ---------------------------------------------------------------- stable sorting

  ghost predicate TotalPreorder<T(!new)>(leq: (T, T) -> bool) {
    && (forall a, b :: leq(a, b) || leq(b, a))
    && (forall a, b, c :: leq(a, b) && leq(b, c) ==> leq(a, c))
  }

  ghost predicate Ordered<T>(leq: (T, T) -> bool, s: seq<T>) {
    forall i, j | 0 <= i < j < |s| :: leq(s[i], s[j])
  }

  function Insert<T>(leq: (T, T) -> bool, s: seq<T>, x: T): seq<T>
    decreases |s|
  {
    if |s| == 0 || leq(s[|s| - 1], x) then s + [x] else Insert(leq, s[..|s| - 1], x) + [s[|s| - 1]]
  }

  function Sorted<T>(leq: (T, T) -> bool, s: seq<T>): seq<T>
    decreases |s|
  {
    if |s| == 0 then [] else Insert(leq, Sorted(leq, s[..|s| - 1]), s[|s| - 1])
  }

  lemma {:induction false} InsertKeepsElements<T>(leq: (T, T) -> bool, s: seq<T>, x: T)
    ensures multiset(Insert(leq, s, x)) == multiset(s) + multiset{x} && |Insert(leq, s, x)| == |s| + 1
    decreases |s|
  {
    if |s| > 0 {
      assert s == s[..|s| - 1] + [s[|s| - 1]];
      InsertKeepsElements(leq, s[..|s| - 1], x);
    }
  }

  lemma {:induction false} InsertKeepsOrder<T(!new)>(leq: (T, T) -> bool, s: seq<T>, x: T)
    requires TotalPreorder(leq) && Ordered(leq, s)
    ensures Ordered(leq, Insert(leq, s, x))
    decreases |s|
  {
    if |s| > 0 && !leq(s[|s| - 1], x) {
      var front, last := s[..|s| - 1], s[|s| - 1];
      InsertKeepsOrder(leq, front, x);
      InsertKeepsElements(leq, front, x);
      var r := Insert(leq, front, x);
      forall i | 0 <= i < |r| ensures leq(r[i], last) {
        assert r[i] in multiset(r);
        assert r[i] in multiset(front) || r[i] == x;
      }
    }
  }

  lemma {:induction false} InsertIsStable<T(!new)>(leq: (T, T) -> bool, p: T -> bool, s: seq<T>, x: T)
    requires forall a, b :: p(a) && p(b) ==> leq(a, b)
    ensures Only(p, Insert(leq, s, x)) == Only(p, s) + if p(x) then [x] else []
    decreases |s|
  {
    OnlyNext(p, s, x);
    if |s| > 0 && !leq(s[|s| - 1], x) {
      InsertIsStable(leq, p, s[..|s| - 1], x);
      OnlyNext(p, Insert(leq, s[..|s| - 1], x), s[|s| - 1]);
    }
  }

  /** Sorting orders the elements, keeps them all, and keeps the order of elements that tie. */
  lemma {:induction false} SortingSorts<T(!new)>(leq: (T, T) -> bool, p: T -> bool, s: seq<T>)
    requires TotalPreorder(leq)
    ensures Ordered(leq, Sorted(leq, s)) && multiset(Sorted(leq, s)) == multiset(s) && |Sorted(leq, s)| == |s|
    ensures (forall a, b :: p(a) && p(b) ==> leq(a, b)) ==> Only(p, Sorted(leq, s)) == Only(p, s)
    decreases |s|
  {
    if |s| > 0 {
      var front, last := s[..|s| - 1], s[|s| - 1];
      assert s == front + [last];
      SortingSorts(leq, p, front);
      InsertKeepsOrder(leq, Sorted(leq, front), last);
      InsertKeepsElements(leq, Sorted(leq, front), last);
      if forall a, b :: p(a) && p(b) ==> leq(a, b) {
        InsertIsStable(leq, p, Sorted(leq, front), last);
      }
    }
  }

  // ---------------------------------------------------------------- what the listing means

  predicate Contains(s: string, needle: string) {
    exists i | 0 <= i <= |s| :: OccursAt(s, needle, i)
  }

  predicate OccursAt(s: string, needle: string, i: int) {
    0 <= i <= |s| - |needle| && s[i..i + |needle|] == needle
  }

  function Filtered(t: CharTables, rules: seq<Rule>, search: Option<string>): seq<Rule> {
    if search.None? || Trim(search.value, t.isSpace) == "" then rules
    else
      var needle := Trim(Lower(t, search.value), t.isSpace);
      Only((rule: Rule) => Contains(Lower(t, rule.value), needle), rules)
  }

  function RulesOf(rootOf: string -> string, rules: seq<Rule>, root: string): seq<Rule> {
    Only((rule: Rule) => rootOf(rule.value) == root, rules)
  }

  /** The roots of a list of rules, in the order of their first rule. */
  function Roots(rootOf: string -> string, rules: seq<Rule>): seq<string>
    decreases |rules|
  {
    if |rules| == 0 then []
    else
      var before, root := Roots(rootOf, rules[..|rules| - 1]), rootOf(rules[|rules| - 1].value);
      if root in before then before else before + [root]
  }

  function ByValue(leq: (string, string) -> bool): (Rule, Rule) -> bool {
    (a: Rule, b: Rule) => leq(a.value, b.value)
  }

  predicate Blocks(rule: Rule) {
    rule.kind == BlockedSubdomain || rule.kind == BlockedPath
  }

  function GroupOf(leq: (string, string) -> bool, root: string, rules: seq<Rule>): Group {
    var sorted := Sorted(ByValue(leq), rules);
    var hasWhitelist := exists i | 0 <= i < |sorted| :: sorted[i].kind == Whitelist;
    var hasBlocked := exists i | 0 <= i < |sorted| :: Blocks(sorted[i]);
    Group(root, sorted, if hasWhitelist && hasBlocked then Mixed else if hasBlocked then Blocked else Allowed)
  }

  function SortedRoots(leq: (string, string) -> bool, rootOf: string -> string, rules: seq<Rule>): seq<string> {
    Sorted(leq, Roots(rootOf, rules))
  }

  /** All groups, in sorted order of their roots. */
  function Groups(leq: (string, string) -> bool, rootOf: string -> string, rules: seq<Rule>): seq<Group> {
    var roots := SortedRoots(leq, rootOf, rules);
    seq(|roots|, i requires 0 <= i < |roots| => GroupOf(leq, roots[i], RulesOf(rootOf, rules, roots[i])))
  }

  function Clip(n: nat, length: nat): nat {
    if n < length then n else length
  }

  function Slice<T>(s: seq<T>, from: nat, to: nat): seq<T>
    requires from <= to
  {
    s[Clip(from, |s|)..Clip(to, |s|)]
  }

  function PageOf(groups: seq<Group>, totalRules: nat, limit: nat, offset: nat): Page {
    Page(Slice(groups, offset, offset + limit), |groups|, totalRules, offset + limit < |groups|)
  }

  // ---------------------------------------------------------------- the loops

  function Entries(grouped: map<string, seq<Rule>>, root: string): seq<Rule> {
    if root in grouped then grouped[root] else []
  }

  ghost predicate Collected(rootOf: string -> string, rules: seq<Rule>, keys: seq<string>, grouped: map<string, seq<Rule>>) {
    && keys == Roots(rootOf, rules)
    && (forall root :: root in keys <==> root in grouped)
    && (forall root :: Entries(grouped, root) == RulesOf(rootOf, rules, root))
  }

  lemma CollectedNext(rootOf: string -> string, rules: seq<Rule>, i: nat, keys: seq<string>, grouped: map<string, seq<Rule>>)
    requires i < |rules| && Collected(rootOf, rules[..i], keys, grouped)
    ensures var root := rootOf(rules[i].value);
            Collected(rootOf, rules[..i + 1], if root in grouped then keys else keys + [root],
                      grouped[root := Entries(grouped, root) + [rules[i]]])
  {
    var before, added := rules[..i], rootOf(rules[i].value);
    assert rules[..i + 1] == before + [rules[i]] && rules[..i + 1][..i] == before;
    var after := grouped[added := Entries(grouped, added) + [rules[i]]];
    forall root ensures Entries(after, root) == RulesOf(rootOf, rules[..i + 1], root) {
      OnlyNext((r: Rule) => rootOf(r.value) == root, before, rules[i]);
      assert Entries(grouped, root) == RulesOf(rootOf, before, root);
    }
  }

  /** The groups of the roots of a page, built from the collected rules. */
  function PageGroups(leq: (string, string) -> bool, grouped: map<string, seq<Rule>>, roots: seq<string>): seq<Group> {
    seq(|roots|, i requires 0 <= i < |roots| => GroupOf(leq, roots[i], Entries(grouped, roots[i])))
  }

  lemma AllGroups(leq: (string, string) -> bool, rootOf: string -> string, rules: seq<Rule>, keys: seq<string>,
                  grouped: map<string, seq<Rule>>)
    requires Collected(rootOf, rules, keys, grouped)
    ensures PageGroups(leq, grouped, Sorted(leq, keys)) == Groups(leq, rootOf, rules)
  {
    var roots := Sorted(leq, keys);
    forall i | 0 <= i < |roots| ensures PageGroups(leq, grouped, roots)[i] == Groups(leq, rootOf, rules)[i] {
      assert Entries(grouped, roots[i]) == RulesOf(rootOf, rules, roots[i]);
    }
  }

  lemma SliceOfGroups(leq: (string, string) -> bool, grouped: map<string, seq<Rule>>, roots: seq<string>, from: nat, to: nat)
    requires from <= to
    ensures PageGroups(leq, grouped, Slice(roots, from, to)) == Slice(PageGroups(leq, grouped, roots), from, to)
  {
  }

  /** The grouping loop; `keys` stands for the insertion order of the map's keys. */
  method GroupByRoot(rootOf: string -> string, filtered: seq<Rule>) returns (keys: seq<string>, grouped: map<string, seq<Rule>>)
    ensures Collected(rootOf, filtered, keys, grouped)
  {
    grouped := map[];
    keys := [];
    for i := 0 to |filtered|
      invariant Collected(rootOf, filtered[..i], keys, grouped)
    {
      var rule := filtered[i];
      var root := rootOf(rule.value);
      CollectedNext(rootOf, filtered, i, keys, grouped);
      var existing := Entries(grouped, root);
      if root !in grouped {
        keys := keys + [root];
      }
      grouped := grouped[root := existing + [rule]];
    }
    assert filtered[..|filtered|] == filtered;
  }

  method ListGroupedGroupRules(t: CharTables, leq: (string, string) -> bool, rootOf: string -> string, allRules: seq<Rule>,
                               search: Option<string>, limit: nat, offset: nat) returns (page: Page)
    ensures var rules := Filtered(t, allRules, search);
            page == PageOf(Groups(leq, rootOf, rules), |rules|, limit, offset)
  {
    var filtered := Filtered(t, allRules, search);
    var keys, grouped := GroupByRoot(rootOf, filtered);
    var sortedRoots := Sorted(leq, keys);
    var paginatedRoots := Slice(sortedRoots, offset, offset + limit);
    ListingIsPage(leq, rootOf, filtered, keys, grouped, limit, offset);
    return Page(PageGroups(leq, grouped, paginatedRoots), |sortedRoots|, |filtered|, offset + limit < |sortedRoots|);
  }

  lemma ListingIsPage(leq: (string, string) -> bool, rootOf: string -> string, rules: seq<Rule>, keys: seq<string>,
                      grouped: map<string, seq<Rule>>, limit: nat, offset: nat)
    requires Collected(rootOf, rules, keys, grouped)
    ensures var roots := Sorted(leq, keys);
            Page(PageGroups(leq, grouped, Slice(roots, offset, offset + limit)), |roots|, |rules|, offset + limit < |roots|)
            == PageOf(Groups(leq, rootOf, rules), |rules|, limit, offset)
  {
    AllGroups(leq, rootOf, rules, keys, grouped);
    assert |PageGroups(leq, grouped, Sorted(leq, keys))| == |Sorted(leq, keys)|;
    SliceOfGroups(leq, grouped, Sorted(leq, keys), offset, offset + limit);
  }

  // ---------------------------------------------------------------- the groups are a partition

  lemma {:induction false} RootsAreDistinct(rootOf: string -> string, rules: seq<Rule>)
    ensures forall i, j | 0 <= i < j < |Roots(rootOf, rules)| :: Roots(rootOf, rules)[i] != Roots(rootOf, rules)[j]
    ensures forall root :: root in Roots(rootOf, rules) <==> exists k | 0 <= k < |rules| :: rootOf(rules[k].value) == root
    decreases |rules|
  {
    if |rules| > 0 {
      RootsAreDistinct(rootOf, rules[..|rules| - 1]);
    }
  }

  /** Distinctness, as counts. */
  lemma {:induction false} DistinctCounts<T>(s: seq<T>)
    requires forall i, j | 0 <= i < j < |s| :: s[i] != s[j]
    ensures forall x :: multiset(s)[x] <= 1
    decreases |s|
  {
    if |s| > 0 {
      DistinctCounts(s[..|s| - 1]);
      assert s == s[..|s| - 1] + [s[|s| - 1]];
    }
  }

  lemma CountsDistinct<T>(s: seq<T>, i: nat, j: nat)
    requires i < j < |s| && forall x :: multiset(s)[x] <= 1
    ensures s[i] != s[j]
  {
    var before, after := multiset(s[..j]), multiset(s[j..]);
    assert s == s[..j] + s[j..] && multiset(s) == before + after;
    assert s[..j][i] == s[i] && s[j..][0] == s[j];
    assert s[i] in before && s[j] in after;
    assert multiset(s)[s[i]] <= 1;
  }

  lemma SortedRootsAreRoots(leq: (string, string) -> bool, rootOf: string -> string, rules: seq<Rule>)
    requires TotalPreorder(leq)
    ensures var roots := SortedRoots(leq, rootOf, rules);
            && (forall i, j | 0 <= i < j < |roots| :: roots[i] != roots[j] && leq(roots[i], roots[j]))
            && (forall root :: root in roots <==> root in Roots(rootOf, rules))
  {
    var roots := Roots(rootOf, rules);
    var sorted := SortedRoots(leq, rootOf, rules);
    RootsAreDistinct(rootOf, rules);
    SortingSorts(leq, x => false, roots);
    DistinctCounts(roots);
    forall i, j | 0 <= i < j < |sorted| ensures sorted[i] != sorted[j] {
      CountsDistinct(sorted, i, j);
    }
    forall root ensures root in sorted <==> root in roots {
      assert root in sorted <==> root in multiset(sorted);
      assert root in roots <==> root in multiset(roots);
    }
  }

  /** One group per root, in sorted order. */
  lemma GroupsFollowRoots(leq: (string, string) -> bool, rootOf: string -> string, rules: seq<Rule>)
    requires TotalPreorder(leq)
    ensures var groups := Groups(leq, rootOf, rules);
            && (forall i, j | 0 <= i < j < |groups| :: groups[i].root != groups[j].root && leq(groups[i].root, groups[j].root))
            && (forall k | 0 <= k < |rules| :: HasRoot(groups, rootOf(rules[k].value)))
  {
    var groups, roots := Groups(leq, rootOf, rules), SortedRoots(leq, rootOf, rules);
    SortedRootsAreRoots(leq, rootOf, rules);
    RootsAreDistinct(rootOf, rules);
    assert forall i | 0 <= i < |groups| :: groups[i].root == roots[i];
    forall k | 0 <= k < |rules| ensures HasRoot(groups, rootOf(rules[k].value)) {
      var root := rootOf(rules[k].value);
      assert root in roots;
      var i :| 0 <= i < |roots| && roots[i] == root;
      assert groups[i].root == root;
    }
  }

  predicate HasRoot(groups: seq<Group>, root: string) {
    exists i | 0 <= i < |groups| :: groups[i].root == root
  }

  /** `group` holds the rules of its root and no other, as often as they are listed. */
  ghost predicate Holds(rootOf: string -> string, rules: seq<Rule>, group: Group) {
    forall rule: Rule :: multiset(group.rules)[rule] == if rootOf(rule.value) == group.root then multiset(rules)[rule] else 0
  }

  lemma ByValueIsPreorder(leq: (string, string) -> bool)
    requires TotalPreorder(leq)
    ensures TotalPreorder(ByValue(leq))
  {
    var byValue := ByValue(leq);
    assert forall a: Rule, b: Rule :: byValue(a, b) == leq(a.value, b.value);
  }

  lemma GroupOfHolds(leq: (string, string) -> bool, rootOf: string -> string, rules: seq<Rule>, root: string)
    requires TotalPreorder(leq)
    ensures var group := GroupOf(leq, root, RulesOf(rootOf, rules, root));
            Holds(rootOf, rules, group) && Ordered(ByValue(leq), group.rules)
  {
    var mine := RulesOf(rootOf, rules, root);
    ByValueIsPreorder(leq);
    SortingSorts(ByValue(leq), r => false, mine);
    forall rule: Rule ensures multiset(mine)[rule] == if rootOf(rule.value) == root then multiset(rules)[rule] else 0 {
      OnlyCounts((r: Rule) => rootOf(r.value) == root, rules, rule);
    }
  }

  /** Every group holds exactly the rules of its root, sorted by value, and none is empty. */
  lemma GroupHoldsItsRules(leq: (string, string) -> bool, rootOf: string -> string, rules: seq<Rule>, i: nat)
    requires TotalPreorder(leq) && i < |Groups(leq, rootOf, rules)|
    ensures var group := Groups(leq, rootOf, rules)[i];
            Holds(rootOf, rules, group) && Ordered(ByValue(leq), group.rules) && |group.rules| > 0
  {
    var group, roots := Groups(leq, rootOf, rules)[i], SortedRoots(leq, rootOf, rules);
    GroupOfHolds(leq, rootOf, rules, roots[i]);
    SortedRootsAreRoots(leq, rootOf, rules);
    RootsAreDistinct(rootOf, rules);
    assert roots[i] in roots;
    var k :| 0 <= k < |rules| && rootOf(rules[k].value) == roots[i];
    assert rules[k] in multiset(rules);
    assert rules[k] in multiset(group.rules);
  }

  lemma GroupMembers(leq: (string, string) -> bool, rootOf: string -> string, rules: seq<Rule>, i: nat)
    requires TotalPreorder(leq) && i < |Groups(leq, rootOf, rules)|
    ensures var group := Groups(leq, rootOf, rules)[i];
            forall r :: r in group.rules <==> rootOf(r.value) == group.root && r in rules
  {
    var group := Groups(leq, rootOf, rules)[i];
    GroupHoldsItsRules(leq, rootOf, rules, i);
    forall r: Rule ensures r in group.rules <==> rootOf(r.value) == group.root && r in rules {
      assert r in group.rules <==> r in multiset(group.rules);
      assert r in rules <==> r in multiset(rules);
    }
  }

  /** Mixed, blocked and allowed, told from the rules of the group. */
  lemma StatusTellsRules(leq: (string, string) -> bool, rootOf: string -> string, rules: seq<Rule>, i: nat)
    requires TotalPreorder(leq) && i < |Groups(leq, rootOf, rules)|
    ensures var group := Groups(leq, rootOf, rules)[i];
            var blocks := exists k | 0 <= k < |rules| :: rootOf(rules[k].value) == group.root
                             && (rules[k].kind == BlockedSubdomain || rules[k].kind == BlockedPath);
            var lists := exists k | 0 <= k < |rules| :: rootOf(rules[k].value) == group.root && rules[k].kind == Whitelist;
            && (group.status == Mixed <==> blocks && lists)
            && (group.status == Blocked <==> blocks && !lists)
            && (group.status == Allowed <==> !blocks)
  {
    GroupMembers(leq, rootOf, rules, i);
  }

  function Flatten(groups: seq<Group>): seq<Rule>
    decreases |groups|
  {
    if |groups| == 0 then [] else Flatten(groups[..|groups| - 1]) + groups[|groups| - 1].rules
  }

  lemma {:induction false} FlatCount(rootOf: string -> string, rules: seq<Rule>, groups: seq<Group>, rule: Rule)
    requires forall i | 0 <= i < |groups| :: Holds(rootOf, rules, groups[i])
    requires forall i, j | 0 <= i < j < |groups| :: groups[i].root != groups[j].root
    ensures multiset(Flatten(groups))[rule] == if HasRoot(groups, rootOf(rule.value)) then multiset(rules)[rule] else 0
    decreases |groups|
  {
    if |groups| > 0 {
      var front, last, root := groups[..|groups| - 1], groups[|groups| - 1], rootOf(rule.value);
      FlatCount(rootOf, rules, front, rule);
      HasRootNext(groups, root);
      assert multiset(Flatten(groups))[rule] == multiset(Flatten(front))[rule] + multiset(last.rules)[rule];
      assert multiset(last.rules)[rule] == if root == last.root then multiset(rules)[rule] else 0;
    }
  }

  lemma HasRootNext(groups: seq<Group>, root: string)
    requires |groups| > 0
    requires forall i, j | 0 <= i < j < |groups| :: groups[i].root != groups[j].root
    ensures var front, last := groups[..|groups| - 1], groups[|groups| - 1];
            && (HasRoot(groups, root) <==> HasRoot(front, root) || root == last.root)
            && !(HasRoot(front, root) && root == last.root)
  {
    var front := groups[..|groups| - 1];
    if i :| 0 <= i < |front| && front[i].root == root {
      assert groups[i].root == root;
    }
  }

  /** Together the groups hold every filtered rule, each as often as it is listed. */
  lemma GroupsPartitionRules(leq: (string, string) -> bool, rootOf: string -> string, rules: seq<Rule>)
    requires TotalPreorder(leq)
    ensures multiset(Flatten(Groups(leq, rootOf, rules))) == multiset(rules)
  {
    var groups := Groups(leq, rootOf, rules);
    GroupsFollowRoots(leq, rootOf, rules);
    forall i | 0 <= i < |groups| ensures Holds(rootOf, rules, groups[i]) {
      GroupHoldsItsRules(leq, rootOf, rules, i);
    }
    forall rule: Rule ensures multiset(Flatten(groups))[rule] == multiset(rules)[rule] {
      FlatCount(rootOf, rules, groups, rule);
      if rule in multiset(rules) {
        var k :| 0 <= k < |rules| && rules[k] == rule;
      }
    }
  }

  // ---------------------------------------------------------------- reading every page

  /** A reader's walk: pages at offsets 0, limit, 2*limit, ... up to the first without more. */
  function Walk(groups: seq<Group>, totalRules: nat, limit: nat, offset: nat): seq<Page>
    requires limit > 0
    decreases |groups| - offset
  {
    var page := PageOf(groups, totalRules, limit, offset);
    [page] + if page.hasMore then Walk(groups, totalRules, limit, offset + limit) else []
  }

  function Joined(pages: seq<Page>): seq<Group> {
    if |pages| == 0 then [] else pages[0].groups + Joined(pages[1..])
  }

  lemma JoinedCons(page: Page, rest: seq<Page>)
    ensures Joined([page] + rest) == page.groups + Joined(rest)
  {
    assert ([page] + rest)[1..] == rest;
  }

  /** A page holds the groups from its offset on, up to its limit or the end. */
  lemma PageHolds(groups: seq<Group>, totalRules: nat, limit: nat, offset: nat)
    requires offset <= |groups|
    ensures var page := PageOf(groups, totalRules, limit, offset);
            && (page.hasMore ==> page.groups + groups[offset + limit..] == groups[offset..])
            && (!page.hasMore ==> page.groups == groups[offset..])
  {
  }

  /** A page has as many groups as its limit if more follow, no more than that if none do, and none behind the end. */
  lemma PageFits(groups: seq<Group>, totalRules: nat, limit: nat, offset: nat)
    ensures var page := PageOf(groups, totalRules, limit, offset);
            && |page.groups| <= limit && (page.hasMore ==> |page.groups| == limit)
            && (offset > |groups| ==> page.groups == [] && !page.hasMore)
  {
  }

  lemma {:induction false} WalkFrom(groups: seq<Group>, totalRules: nat, limit: nat, offset: nat)
    requires limit > 0 && offset <= |groups|
    ensures Joined(Walk(groups, totalRules, limit, offset)) == groups[offset..]
    decreases |groups| - offset
  {
    var page := PageOf(groups, totalRules, limit, offset);
    PageHolds(groups, totalRules, limit, offset);
    if page.hasMore {
      var next := offset + limit;
      var rest := Walk(groups, totalRules, limit, next);
      WalkFrom(groups, totalRules, limit, next);
      JoinedCons(page, rest);
      assert Walk(groups, totalRules, limit, offset) == [page] + rest;
    } else {
      JoinedCons(page, []);
      assert Walk(groups, totalRules, limit, offset) == [page] + [];
    }
  }

  /** The number of pages is the number of groups over the limit, rounded up, and at least one. */
  lemma {:induction false} WalkLength(groups: seq<Group>, totalRules: nat, limit: nat, offset: nat)
    requires limit > 0
    ensures var n := |Walk(groups, totalRules, limit, offset)|;
            n >= 1 && offset + n * limit >= |groups| && (n > 1 ==> offset + (n - 1) * limit < |groups|)
    decreases |groups| - offset
  {
    if offset + limit < |groups| {
      WalkLength(groups, totalRules, limit, offset + limit);
      var m := |Walk(groups, totalRules, limit, offset + limit)|;
      assert (m + 1) * limit == m * limit + limit;
      assert m * limit == (m - 1) * limit + limit;
    }
  }

  /** Walking from offset zero yields every group once, in sorted order, however large the pages are. */
  lemma WalkIsComplete(leq: (string, string) -> bool, rootOf: string -> string, rules: seq<Rule>, limit: nat)
    requires TotalPreorder(leq) && limit > 0
    ensures var groups := Joined(Walk(Groups(leq, rootOf, rules), |rules|, limit, 0));
            groups == Groups(leq, rootOf, rules) && multiset(Flatten(groups)) == multiset(rules)
  {
    WalkFrom(Groups(leq, rootOf, rules), |rules|, limit, 0);
    GroupsPartitionRules(leq, rootOf, rules);
  }
}
