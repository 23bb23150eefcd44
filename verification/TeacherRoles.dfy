/**
 * The rewriting of teacher roles to group ids (api/src/db/schema-cleanup.ts:167-230).
 */
module TeacherRoles {
  import opened Wrappers
  import opened Strings

  datatype Group = Group(id: string, name: string)

  /** An element of the stored array: a string, or some other JSON value. */
  datatype Value = Text(s: string) | Other

  datatype RoleRow = RoleRow(id: string, groupIds: Option<seq<Value>>)

  function Ids(groups: seq<Group>): set<string> {
    set i | 0 <= i < |groups| :: groups[i].id
  }

  /** The ids of the groups called `name`, in table order. */
  function Named(groups: seq<Group>, name: string): seq<string> {
    if |groups| == 0 then []
    else Named(groups[..|groups| - 1], name) + if groups[|groups| - 1].name == name then [groups[|groups| - 1].id] else []
  }

  /** The group a stored value stands for: an id, or else a name that only one group has. */
  function Resolve(t: CharTables, groups: seq<Group>, value: Value): Option<string> {
    if value.Other? || Trim(value.s, t.isSpace) == "" then None
    else
      var trimmed := Trim(value.s, t.isSpace);
      if trimmed in Ids(groups) then Some(trimmed)
      else if |Named(groups, trimmed)| == 1 then Some(Named(groups, trimmed)[0])
      else None
  }

  function AddNew(ids: seq<string>, found: Option<string>): seq<string> {
    if found.Some? && found.value !in ids then ids + [found.value] else ids
  }

  /** What a list of values stands for, value by value. */
  function Resolved(t: CharTables, groups: seq<Group>, source: seq<Value>): seq<Option<string>> {
    seq(|source|, i requires 0 <= i < |source| => Resolve(t, groups, source[i]))
  }

  function Collect(found: seq<Option<string>>): seq<string>
    decreases |found|
  {
    if |found| == 0 then [] else AddNew(Collect(found[..|found| - 1]), found[|found| - 1])
  }

  function Rewritten(t: CharTables, groups: seq<Group>, source: seq<Value>): seq<string> {
    Collect(Resolved(t, groups, source))
  }

  lemma NextFound(found: seq<Option<string>>, last: Option<string>)
    ensures Collect(found + [last]) == AddNew(Collect(found), last)
  {
    assert (found + [last])[..|found|] == found;
  }

  lemma NextValue(t: CharTables, groups: seq<Group>, source: seq<Value>, value: Value)
    ensures Rewritten(t, groups, source + [value]) == AddNew(Rewritten(t, groups, source), Resolve(t, groups, value))
  {
    NextFound(Resolved(t, groups, source), Resolve(t, groups, value));
    assert Resolved(t, groups, source + [value]) == Resolved(t, groups, source) + [Resolve(t, groups, value)];
  }

  lemma NextGroup(groups: seq<Group>, group: Group, name: string)
    ensures Named(groups + [group], name) == Named(groups, name) + if group.name == name then [group.id] else []
  {
    assert (groups + [group])[..|groups|] == groups;
  }

  // ---------------------------------------------------------------- the loops

  function Entries(idsByName: map<string, seq<string>>, name: string): seq<string> {
    if name in idsByName then idsByName[name] else []
  }

  ghost predicate Indexes(idsByName: map<string, seq<string>>, groups: seq<Group>) {
    forall name :: Entries(idsByName, name) == Named(groups, name)
  }

  lemma IndexesNext(idsByName: map<string, seq<string>>, groups: seq<Group>, group: Group)
    requires Indexes(idsByName, groups)
    ensures Indexes(idsByName[group.name := Entries(idsByName, group.name) + [group.id]], groups + [group])
  {
    var after := idsByName[group.name := Entries(idsByName, group.name) + [group.id]];
    forall name ensures Entries(after, name) == Named(groups + [group], name) {
      NextGroup(groups, group, name);
      assert Entries(idsByName, name) == Named(groups, name);
    }
  }

  method IndexByName(groups: seq<Group>) returns (idsByName: map<string, seq<string>>)
    ensures Indexes(idsByName, groups)
  {
    idsByName := map[];
    for i := 0 to |groups|
      invariant Indexes(idsByName, groups[..i])
    {
      var row := groups[i];
      IndexesNext(idsByName, groups[..i], row);
      idsByName := idsByName[row.name := Entries(idsByName, row.name) + [row.id]];
      assert groups[..i] + [row] == groups[..i + 1];
    }
    assert groups[..|groups|] == groups;
  }

  method NextGroupIds(t: CharTables, groups: seq<Group>, validIds: set<string>, idsByName: map<string, seq<string>>,
                      source: seq<Value>) returns (next: seq<string>)
    requires validIds == Ids(groups)
    requires Indexes(idsByName, groups)
    ensures next == Rewritten(t, groups, source)
  {
    next := [];
    for i := 0 to |source|
      invariant next == Rewritten(t, groups, source[..i])
    {
      assert source[..i + 1] == source[..i] + [source[i]];
      NextValue(t, groups, source[..i], source[i]);
      if source[i].Other? { continue; }
      var trimmed := Trim(source[i].s, t.isSpace);
      if trimmed == "" { continue; }
      if trimmed in validIds {
        if trimmed !in next {
          next := next + [trimmed];
        }
        continue;
      }
      var matches := Entries(idsByName, trimmed);
      assert matches == Named(groups, trimmed);
      if |matches| == 1 && matches[0] !in next {
        next := next + [matches[0]];
      }
    }
    assert source[..|source|] == source;
  }

  method CanonicalizeTeacherRoles(t: CharTables, groups: seq<Group>, rows: seq<RoleRow>) returns (updated: seq<(string, seq<string>)>)
    ensures |updated| == |rows|
    ensures forall i | 0 <= i < |rows| :: updated[i] == (rows[i].id, Rewritten(t, groups, rows[i].groupIds.GetOr([])))
  {
    var validIds := Ids(groups);
    var idsByName := IndexByName(groups);
    updated := [];
    for i := 0 to |rows|
      invariant |updated| == i
      invariant forall k | 0 <= k < i :: updated[k] == (rows[k].id, Rewritten(t, groups, rows[k].groupIds.GetOr([])))
    {
      var next := NextGroupIds(t, groups, validIds, idsByName, rows[i].groupIds.GetOr([]));
      updated := updated + [(rows[i].id, next)];
    }
  }

  // ---------------------------------------------------------------- what the rewriting keeps

  predicate Mentions(found: seq<Option<string>>, k: int, id: string) {
    0 <= k < |found| && found[k] == Some(id)
  }

  /** `a` is mentioned before the first mention of `b`. */
  predicate MentionedEarlier(found: seq<Option<string>>, a: string, b: string) {
    exists k | 0 <= k < |found| :: Mentions(found, k, a) && forall l | 0 <= l <= k :: !Mentions(found, l, b)
  }

  /** `ids` lists, once each, the groups mentioned, by first mention. */
  ghost predicate ListsByFirstMention(found: seq<Option<string>>, ids: seq<string>) {
    && (forall i, j | 0 <= i < j < |ids| :: ids[i] != ids[j])
    && (forall id :: id in ids <==> exists k :: Mentions(found, k, id))
    && (forall i, j | 0 <= i < j < |ids| :: MentionedEarlier(found, ids[i], ids[j]))
  }

  lemma EarlierStays(found: seq<Option<string>>, last: Option<string>, a: string, b: string)
    requires MentionedEarlier(found, a, b)
    ensures MentionedEarlier(found + [last], a, b)
  {
    var k :| 0 <= k < |found| && Mentions(found, k, a) && forall l | 0 <= l <= k :: !Mentions(found, l, b);
    assert Mentions(found + [last], k, a);
    forall l | 0 <= l <= k ensures !Mentions(found + [last], l, b) {
      assert !Mentions(found, l, b);
    }
  }

  lemma MentionedInAll(found: seq<Option<string>>, last: Option<string>, id: string)
    ensures (exists k :: Mentions(found + [last], k, id)) <==> (exists k :: Mentions(found, k, id)) || last == Some(id)
  {
    if k :| Mentions(found + [last], k, id) {
      if k < |found| { assert Mentions(found, k, id); }
    }
    if k :| Mentions(found, k, id) {
      assert Mentions(found + [last], k, id);
    }
    if last == Some(id) {
      assert Mentions(found + [last], |found|, id);
    }
  }

  lemma NewcomerComesLast(found: seq<Option<string>>, ids: seq<string>, id: string, i: nat)
    requires ListsByFirstMention(found, ids) && id !in ids && i < |ids|
    ensures MentionedEarlier(found + [Some(id)], ids[i], id)
  {
    assert ids[i] in ids;
    var k :| Mentions(found, k, ids[i]);
    assert Mentions(found + [Some(id)], k, ids[i]);
    forall l | 0 <= l <= k ensures !Mentions(found + [Some(id)], l, id) {
      assert !Mentions(found, l, id);
    }
  }

  lemma {:induction false} CollectsByFirstMention(found: seq<Option<string>>)
    ensures ListsByFirstMention(found, Collect(found))
    decreases |found|
  {
    if |found| > 0 {
      var front, last := found[..|found| - 1], found[|found| - 1];
      CollectsByFirstMention(front);
      assert found == front + [last];
      var ids, next := Collect(front), Collect(found);
      NextFound(front, last);
      forall id ensures id in next <==> exists k :: Mentions(found, k, id) {
        MentionedInAll(front, last, id);
      }
      forall i, j | 0 <= i < j < |next| ensures MentionedEarlier(found, next[i], next[j]) {
        if j < |ids| { EarlierStays(front, last, ids[i], ids[j]); } else { NewcomerComesLast(front, ids, last.value, i); }
      }
    }
  }

  /** The rewritten list is the duplicate-free list of the groups its source stands for, by first mention. */
  lemma RewritingListsByFirstMention(t: CharTables, groups: seq<Group>, source: seq<Value>)
    ensures ListsByFirstMention(Resolved(t, groups, source), Rewritten(t, groups, source))
  {
    CollectsByFirstMention(Resolved(t, groups, source));
  }

  /** First mentions determine the list: there is only one such list. */
  lemma OneListByFirstMention(found: seq<Option<string>>, a: seq<string>, b: seq<string>)
    requires ListsByFirstMention(found, a) && ListsByFirstMention(found, b)
    ensures a == b
  {
    SamePrefix(found, a, b, |a|);
    SamePrefix(found, b, a, |b|);
    assert a[..|a|] == a && b[..|b|] == b;
  }

  lemma {:induction false} SamePrefix(found: seq<Option<string>>, a: seq<string>, b: seq<string>, n: nat)
    requires ListsByFirstMention(found, a) && ListsByFirstMention(found, b) && n <= |a|
    ensures n <= |b| && a[..n] == b[..n]
  {
    if n > 0 {
      SamePrefix(found, a, b, n - 1);
      forall l | 0 <= l < n - 1 ensures a[l] == b[l] {
        assert a[..n - 1][l] == b[..n - 1][l];
      }
      SameNext(found, a, b, n - 1);
    }
  }

  /** After a common beginning both lists go on with the same id. */
  lemma SameNext(found: seq<Option<string>>, a: seq<string>, b: seq<string>, n: nat)
    requires ListsByFirstMention(found, a) && ListsByFirstMention(found, b)
    requires n < |a| && n <= |b| && forall l | 0 <= l < n :: a[l] == b[l]
    ensures n < |b| && a[n] == b[n]
  {
    var j := Place(found, a, b, n);
    if j > n {
      var i := Place(found, b, a, n);
      assert MentionedEarlier(found, b[n], b[j]);
      NotBothEarlier(found, b[n], b[j]);
    }
  }

  /** The next id of one list stands in the other, not before its place. */
  lemma Place(found: seq<Option<string>>, a: seq<string>, b: seq<string>, n: nat) returns (j: nat)
    requires ListsByFirstMention(found, a) && ListsByFirstMention(found, b)
    requires n < |a| && n <= |b| && forall l | 0 <= l < n :: a[l] == b[l]
    ensures n <= j < |b| && b[j] == a[n]
  {
    assert a[n] in a && a[n] in b;
    j :| 0 <= j < |b| && b[j] == a[n];
  }

  lemma NotBothEarlier(found: seq<Option<string>>, a: string, b: string)
    requires MentionedEarlier(found, a, b)
    ensures !MentionedEarlier(found, b, a)
  {
  }

  lemma {:induction false} NamedAreIds(groups: seq<Group>, name: string)
    ensures forall id :: id in Named(groups, name) ==> id in Ids(groups)
  {
    if |groups| > 0 {
      NamedAreIds(groups[..|groups| - 1], name);
      assert groups[|groups| - 1].id in Ids(groups);
      forall id | id in Ids(groups[..|groups| - 1]) ensures id in Ids(groups) {
      }
    }
  }

  lemma ResolvedIsId(t: CharTables, groups: seq<Group>, value: Value)
    ensures var found := Resolve(t, groups, value); found.Some? ==> found.value in Ids(groups)
  {
    if value.Text? {
      NamedAreIds(groups, Trim(value.s, t.isSpace));
    }
  }

  /**
   * What a stored value stands for: the group whose id it is, trimmed, or if it is nobody's id the one
   * group of that name. Other values, blank ones and names that no or several groups have stand for none.
   */
  lemma ResolvesExactly(t: CharTables, groups: seq<Group>, value: Value, id: string)
    ensures Resolve(t, groups, value) == Some(id)
            <==> && value.Text? && Trim(value.s, t.isSpace) != ""
                 && var trimmed := Trim(value.s, t.isSpace);
                    if exists i :: 0 <= i < |groups| && groups[i].id == trimmed then id == trimmed
                    else exists i :: 0 <= i < |groups| && groups[i] == Group(id, trimmed)
                           && forall j | 0 <= j < |groups| && groups[j].name == trimmed :: j == i
  {
    if value.Text? {
      OnlyNamed(groups, Trim(value.s, t.isSpace));
    }
  }

  /** The ids of a name are those of the groups that have it; there is one exactly if one group has it. */
  lemma {:induction false} OnlyNamed(groups: seq<Group>, name: string)
    ensures |Named(groups, name)| == 1 <==> exists i :: 0 <= i < |groups| && OnlyAt(groups, name, i)
    ensures forall i | 0 <= i < |groups| && OnlyAt(groups, name, i) :: Named(groups, name) == [groups[i].id]
    ensures |Named(groups, name)| == 0 <==> forall i | 0 <= i < |groups| :: groups[i].name != name
    decreases |groups|
  {
    if |groups| > 0 {
      var front, last := groups[..|groups| - 1], groups[|groups| - 1];
      OnlyNamed(front, name);
      if last.name == name {
        assert OnlyAt(groups, name, |groups| - 1) <==> |Named(front, name)| == 0;
      } else if i :| 0 <= i < |front| && OnlyAt(front, name, i) {
        assert OnlyAt(groups, name, i);
      }
      forall i | 0 <= i < |groups| && OnlyAt(groups, name, i) ensures Named(groups, name) == [groups[i].id] {
        if i < |front| { assert OnlyAt(front, name, i); }
      }
    }
  }

  predicate OnlyAt(groups: seq<Group>, name: string, i: int)
    requires 0 <= i < |groups|
  {
    groups[i].name == name && forall j | 0 <= j < |groups| && groups[j].name == name :: j == i
  }

  predicate IsId(t: CharTables, groups: seq<Group>, s: string) {
    Trim(s, t.isSpace) != "" && Trim(s, t.isSpace) in Ids(groups)
  }

  predicate KeepsId(t: CharTables, groups: seq<Group>, s: string, ids: seq<string>) {
    IsId(t, groups, s) ==> Trim(s, t.isSpace) in ids
  }

  /** Only existing groups are listed, and every id that was stored, padded or not, is kept. */
  lemma OnlyAndAllValidIds(t: CharTables, groups: seq<Group>, source: seq<Value>)
    ensures forall id :: id in Rewritten(t, groups, source) ==> id in Ids(groups)
    ensures forall k | 0 <= k < |source| && source[k].Text? :: KeepsId(t, groups, source[k].s, Rewritten(t, groups, source))
  {
    var ids := Rewritten(t, groups, source);
    RewritingListsByFirstMention(t, groups, source);
    var found := Resolved(t, groups, source);
    forall id | id in ids ensures id in Ids(groups) {
      var k :| Mentions(found, k, id);
      ResolvedIsId(t, groups, source[k]);
    }
    forall k | 0 <= k < |source| && source[k].Text? ensures KeepsId(t, groups, source[k].s, ids) {
      if IsId(t, groups, source[k].s) {
        assert Mentions(found, k, Trim(source[k].s, t.isSpace));
      }
    }
  }

  // ---------------------------------------------------------------- a second pass

  function Stored(ids: seq<string>): seq<Value> {
    seq(|ids|, i requires 0 <= i < |ids| => Text(ids[i]))
  }

  predicate StandsForItself(t: CharTables, groups: seq<Group>, id: string) {
    Resolve(t, groups, Text(id)) == Some(id)
  }

  /** The list is as long as its source only when every value adds the group it stands for. */
  lemma {:induction false} FullLength(found: seq<Option<string>>)
    ensures |Collect(found)| <= |found|
    ensures |Collect(found)| == |found| ==> forall i | 0 <= i < |found| :: found[i] == Some(Collect(found)[i])
    decreases |found|
  {
    if |found| > 0 {
      FullLength(found[..|found| - 1]);
    }
  }

  lemma {:induction false} DistinctAreCollected(found: seq<Option<string>>, ids: seq<string>)
    requires |found| == |ids| && forall i | 0 <= i < |ids| :: found[i] == Some(ids[i])
    requires forall i, j | 0 <= i < j < |ids| :: ids[i] != ids[j]
    ensures Collect(found) == ids
    decreases |ids|
  {
    if |ids| > 0 {
      DistinctAreCollected(found[..|ids| - 1], ids[..|ids| - 1]);
    }
  }

  /** A second pass changes nothing exactly when every listed id is resolved to itself. */
  lemma SecondPassKeepsFixedIds(t: CharTables, groups: seq<Group>, source: seq<Value>)
    ensures var ids := Rewritten(t, groups, source);
            Rewritten(t, groups, Stored(ids)) == ids
            <==> forall i | 0 <= i < |ids| :: StandsForItself(t, groups, ids[i])
  {
    var ids := Rewritten(t, groups, source);
    RewritingListsByFirstMention(t, groups, source);
    var found := Resolved(t, groups, Stored(ids));
    if Collect(found) == ids {
      FullLength(found);
    } else if forall i | 0 <= i < |ids| :: StandsForItself(t, groups, ids[i]) {
      DistinctAreCollected(found, ids);
    }
  }

  /**
   * A group id that survives being read as a stored value: it is not blank, and either it has no
   * white space around it, or without that it is nobody's id and the name of this group alone.
   */
  predicate ReadsBack(t: CharTables, groups: seq<Group>, id: string) {
    var trimmed := Trim(id, t.isSpace);
    trimmed != "" && (trimmed == id || (trimmed !in Ids(groups) && Named(groups, trimmed) == [id]))
  }

  lemma ReadsBackExactly(t: CharTables, groups: seq<Group>, id: string)
    requires id in Ids(groups)
    ensures StandsForItself(t, groups, id) <==> ReadsBack(t, groups, id)
  {
  }

  /** A second pass changes nothing exactly when every group that the source stands for has an id that reads back. */
  lemma SecondPassExactly(t: CharTables, groups: seq<Group>, source: seq<Value>)
    ensures var ids := Rewritten(t, groups, source);
            Rewritten(t, groups, Stored(ids)) == ids
            <==> forall k | 0 <= k < |source| && Resolve(t, groups, source[k]).Some? ::
                   ReadsBack(t, groups, Resolve(t, groups, source[k]).value)
  {
    var ids, found := Rewritten(t, groups, source), Resolved(t, groups, source);
    SecondPassKeepsFixedIds(t, groups, source);
    RewritingListsByFirstMention(t, groups, source);
    forall k | 0 <= k < |source| && Resolve(t, groups, source[k]).Some?
      ensures var id := Resolve(t, groups, source[k]).value;
              id in ids && (StandsForItself(t, groups, id) <==> ReadsBack(t, groups, id))
    {
      var id := Resolve(t, groups, source[k]).value;
      assert Mentions(found, k, id);
      ResolvedIsId(t, groups, source[k]);
      ReadsBackExactly(t, groups, id);
    }
    forall i | 0 <= i < |ids| ensures exists k | 0 <= k < |source| :: Resolve(t, groups, source[k]) == Some(ids[i]) {
      assert ids[i] in ids;
      var k :| Mentions(found, k, ids[i]);
    }
  }

  /** So it does for group ids that are not blank and have no white space around them. */
  lemma SecondPassChangesNothing(t: CharTables, groups: seq<Group>, source: seq<Value>)
    requires forall id :: id in Ids(groups) ==> id != "" && Trim(id, t.isSpace) == id
    ensures var ids := Rewritten(t, groups, source); Rewritten(t, groups, Stored(ids)) == ids
  {
    var ids := Rewritten(t, groups, source);
    OnlyAndAllValidIds(t, groups, source);
    forall i | 0 <= i < |ids| ensures StandsForItself(t, groups, ids[i]) {
      assert ids[i] in ids && ids[i] in Ids(groups);
    }
    SecondPassKeepsFixedIds(t, groups, source);
  }

  lemma PaddedIdResolves(t: CharTables, groups: seq<Group>)
    requires t.isSpace(' ') && !t.isSpace('x') && !t.isSpace('n')
    requires groups == [Group(" x", "n")] + [Group("x", "m")]
    ensures Resolve(t, groups, Text("n")) == Some(" x") && Resolve(t, groups, Text(" x")) == Some("x")
  {
    TrimPadded(t);
    NextGroup([Group(" x", "n")], Group("x", "m"), "n");
    assert Named([Group(" x", "n")], "n") == [" x"];
    assert groups[1].id in Ids(groups) && "n" !in Ids(groups);
  }

  lemma TrimPadded(t: CharTables)
    requires t.isSpace(' ') && !t.isSpace('x') && !t.isSpace('n')
    ensures Trim("n", t.isSpace) == "n" && Trim(" x", t.isSpace) == "x"
  {
    var padded, drop := " x", t.isSpace;
    assert padded[1..] == "x" && drop(padded[0]);
    assert TrimLeft(padded, drop) == TrimLeft(padded[1..], drop);
  }

  /** A padded id that trims to another group's id: the second pass moves the role to that group. */
  lemma PaddedIdMoves(t: CharTables)
    requires t.isSpace(' ') && !t.isSpace('x') && !t.isSpace('n')
    ensures var groups := [Group(" x", "n")] + [Group("x", "m")];
            Rewritten(t, groups, [Text("n")]) == [" x"] && Rewritten(t, groups, [Text(" x")]) == ["x"]
  {
    var groups := [Group(" x", "n")] + [Group("x", "m")];
    PaddedIdResolves(t, groups);
    NextValue(t, groups, [], Text("n"));
    NextValue(t, groups, [], Text(" x"));
    assert [] + [Text("n")] == [Text("n")] && [] + [Text(" x")] == [Text(" x")];
  }
}
