/**
 * Canonical public names of an organization's groups (api/src/db/schema-cleanup.ts:12-125): the
 * renaming that must satisfy UNIQUE(organization, public name) afterwards.
 *
 * The normalization (the same passes as `GroupNames.NormalizeGroupKey`, written twice in the source)
 * and the hash behind a group's fallback name are parameters of the loop.
 */
module PublicNames {
  import opened Wrappers
  import opened Strings
  import opened GroupNames

  datatype Row = Row(id: string, org: string, group: string, publicName: Option<string>, visibility: Option<string>,
                     openpathName: Option<string>)

  /** What the loop needs of a row: its organization and its normalized base name. */
  datatype Item = Item(org: string, base: string)

  function FallbackPublicName(digest: string -> string, group: string): string {
    "group-" + digest(group)
  }

  function ItemOf(normalize: string -> string, digest: string -> string, row: Row): Item {
    var normalized := normalize(row.publicName.GetOr(row.openpathName.GetOr("")));
    Item(row.org, if normalized == "" then FallbackPublicName(digest, row.group) else normalized)
  }

  /** A row's base is its normalized public name, or without one its upstream name; an empty one falls back to the digest. */
  lemma BaseOf(normalize: string -> string, digest: string -> string, row: Row)
    ensures var base := ItemOf(normalize, digest, row).base;
            && ItemOf(normalize, digest, row).org == row.org
            && (forall name :: row.publicName == Some(name) && normalize(name) != "" ==> base == normalize(name))
            && (forall name :: row.publicName == None && row.openpathName == Some(name) && normalize(name) != "" ==>
                  base == normalize(name))
            && (forall name :: row.publicName == Some(name) && normalize(name) == "" ==> base == "group-" + digest(row.group))
            && (forall name :: row.publicName == None && row.openpathName == Some(name) && normalize(name) == "" ==>
                  base == "group-" + digest(row.group))
            && (row.publicName == None && row.openpathName == None ==>
                  base == if normalize("") == "" then "group-" + digest(row.group) else normalize(""))
  {
  }

  function Items(normalize: string -> string, digest: string -> string, rows: seq<Row>): seq<Item> {
    seq(|rows|, i requires 0 <= i < |rows| => ItemOf(normalize, digest, rows[i]))
  }

  function Suffix(occurrence: nat): string {
    if occurrence == 1 then "" else "-" + Decimal(occurrence)
  }

  /** The part of a base that is left beside the suffix. */
  function Stem(base: string, occurrence: nat): string {
    var room := if 100 - |Suffix(occurrence)| > 1 then 100 - |Suffix(occurrence)| else 1;
    if room < |base| then base[..room] else base
  }

  function NameOf(base: string, occurrence: nat): string {
    Stem(base, occurrence) + Suffix(occurrence)
  }

  /** How often `base` occurs in the unbroken stretch of rows of `org` that ends before row `i`. */
  function Before(items: seq<Item>, i: nat, org: string, base: string): nat
    requires i <= |items|
  {
    if i == 0 || items[i - 1].org != org then 0
    else (if items[i - 1].base == base then 1 else 0) + Before(items, i - 1, org, base)
  }

  function Occurrence(items: seq<Item>, i: nat): nat
    requires i < |items|
  {
    Before(items, i, items[i].org, items[i].base) + 1
  }

  function NameAt(items: seq<Item>, i: nat): string
    requires i < |items|
  {
    NameOf(items[i].base, Occurrence(items, i))
  }

  ghost predicate Counts(used: map<string, nat>, items: seq<Item>, i: nat, org: string)
    requires i <= |items|
  {
    forall base :: Used(used, base) == Before(items, i, org, base)
  }

  function Used(used: map<string, nat>, base: string): nat {
    if base in used then used[base] else 0
  }

  lemma CountsFromScratch(items: seq<Item>, i: nat, org: string)
    requires i <= |items| && (i > 0 ==> items[i - 1].org != org)
    ensures Counts(map[], items, i, org)
  {
  }

  lemma CountsNext(used: map<string, nat>, items: seq<Item>, i: nat)
    requires i < |items| && Counts(used, items, i, items[i].org)
    ensures var next := Used(used, items[i].base) + 1;
            NameOf(items[i].base, next) == NameAt(items, i) && Counts(used[items[i].base := next], items, i + 1, items[i].org)
  {
    var org, after := items[i].org, used[items[i].base := Used(used, items[i].base) + 1];
    forall base ensures Used(after, base) == Before(items, i + 1, org, base) {
      assert Used(used, base) == Before(items, i, org, base);
    }
  }

  function Renamed(row: Row, name: string): Row {
    row.(publicName := Some(name), visibility := Some(row.visibility.GetOr("private")))
  }

  /** The first `n` rows carry the names of their occurrences. */
  ghost predicate RenamedTo(rows: seq<Row>, items: seq<Item>, updated: seq<Row>, n: nat)
    requires |items| == |rows|
  {
    && n == |updated| <= |rows|
    && forall k | 0 <= k < n :: updated[k] == Renamed(rows[k], NameAt(items, k))
  }

  ghost predicate Progress(rows: seq<Row>, items: seq<Item>, current: Option<string>, used: map<string, nat>,
                           updated: seq<Row>, n: nat)
    requires |items| == |rows|
  {
    && RenamedTo(rows, items, updated, n)
    && current == (if n == 0 then None else Some(items[n - 1].org))
    && (n > 0 ==> Counts(used, items, n, items[n - 1].org))
  }

  lemma Advance(rows: seq<Row>, items: seq<Item>, current: Option<string>, used: map<string, nat>, updated: seq<Row>, n: nat)
    requires |items| == |rows| && n < |rows| && Progress(rows, items, current, used, updated, n)
    ensures var used' := if current == Some(items[n].org) then used else map[];
            var occurrence := Used(used', items[n].base) + 1;
            Progress(rows, items, Some(items[n].org), used'[items[n].base := occurrence],
                     updated + [Renamed(rows[n], NameOf(items[n].base, occurrence))], n + 1)
  {
    var used' := if current == Some(items[n].org) then used else map[];
    if current != Some(items[n].org) {
      CountsFromScratch(items, n, items[n].org);
    }
    CountsNext(used', items, n);
  }

  /** Every row gets the name of its occurrence, in table order; nothing else changes but a missing visibility. */
  method CanonicalizePublicNames(normalize: string -> string, digest: string -> string, rows: seq<Row>)
    returns (updated: seq<Row>)
    ensures RenamedTo(rows, Items(normalize, digest, rows), updated, |rows|)
    ensures |updated| == |rows|
    ensures forall k | 0 <= k < |rows| ::
              && updated[k].id == rows[k].id && updated[k].org == rows[k].org && updated[k].group == rows[k].group
              && updated[k].openpathName == rows[k].openpathName
              && updated[k].visibility == (if rows[k].visibility.Some? then rows[k].visibility else Some("private"))
              && updated[k].publicName == Some(NameAt(Items(normalize, digest, rows), k))
  {
    updated := [];
    ghost var items := Items(normalize, digest, rows);
    var current: Option<string> := None;
    var used: map<string, nat> := map[];
    for i := 0 to |rows|
      invariant Progress(rows, items, current, used, updated, i)
    {
      var item := ItemOf(normalize, digest, rows[i]);
      assert items[i] == item;
      Advance(rows, items, current, used, updated, i);
      if current != Some(item.org) {
        current, used := Some(item.org), map[];
      }
      assert current == Some(item.org);
      var occurrence := Used(used, item.base) + 1;
      used := used[item.base := occurrence];
      var publicName := NameOf(item.base, occurrence);
      updated := updated + [Renamed(rows[i], publicName)];
      assert Progress(rows, items, current, used, updated, i + 1);
    }
  }

  // ---------------------------------------------------------------- the constraint afterwards

  /** Rows of one organization follow each other, as ordering by organization makes them. */
  ghost predicate GroupedByOrg(items: seq<Item>) {
    forall i, j, k | 0 <= i < j < k < |items| :: items[i].org == items[k].org ==> items[j].org == items[i].org
  }

  ghost predicate NamesDistinct(items: seq<Item>) {
    forall i, j | 0 <= i < j < |items| :: items[i].org == items[j].org ==> NameAt(items, i) != NameAt(items, j)
  }

  lemma {:induction false} BeforeGrows(items: seq<Item>, i: nat, j: nat)
    requires GroupedByOrg(items) && i < j < |items| && items[i].org == items[j].org
    ensures Before(items, j, items[j].org, items[i].base) > Before(items, i, items[i].org, items[i].base)
  {
    assert items[j - 1].org == items[i].org;
    if i < j - 1 {
      BeforeGrows(items, i, j - 1);
    }
  }

  /** A base and an occurrence number belong to one row of an organization. */
  lemma OccurrenceIdentifies(items: seq<Item>, i: nat, j: nat)
    requires GroupedByOrg(items) && i < |items| && j < |items|
    requires items[i] == items[j] && Occurrence(items, i) == Occurrence(items, j)
    ensures i == j
  {
    if i < j { BeforeGrows(items, i, j); }
    if j < i { BeforeGrows(items, j, i); }
  }

  /** The rows before row `i` that have its organization and base. */
  function Earlier(items: seq<Item>, i: nat, item: Item): set<nat>
    requires i <= |items|
  {
    set k | 0 <= k < i && items[k] == item
  }

  /** Before a stretch of an organization there is no row of it. */
  lemma StretchBegins(items: seq<Item>, i: nat, n: nat)
    requires GroupedByOrg(items) && 0 < i <= n < |items| && items[i - 1].org != items[n].org
    ensures forall k | 0 <= k < i :: items[k].org != items[n].org
  {
  }

  lemma OneMoreRow(items: seq<Item>, i: nat, item: Item)
    requires 0 < i <= |items|
    ensures |Earlier(items, i, item)| == |Earlier(items, i - 1, item)| + if items[i - 1] == item then 1 else 0
  {
    assert Earlier(items, i, item) == Earlier(items, i - 1, item) + if items[i - 1] == item then {i - 1} else {};
  }

  lemma NoRow(items: seq<Item>, i: nat, item: Item)
    requires i <= |items| && forall k | 0 <= k < i :: items[k].org != item.org
    ensures |Earlier(items, i, item)| == 0
  {
    assert Earlier(items, i, item) == {};
  }

  lemma {:induction false} BeforeCounts(items: seq<Item>, i: nat, n: nat)
    requires GroupedByOrg(items) && i <= n < |items|
    ensures Before(items, i, items[n].org, items[n].base) == |Earlier(items, i, items[n])|
  {
    if i > 0 && items[i - 1].org == items[n].org {
      BeforeCounts(items, i - 1, n);
      OneMoreRow(items, i, items[n]);
    } else {
      if i > 0 { StretchBegins(items, i, n); }
      NoRow(items, i, items[n]);
    }
  }

  /**
   * The name of a row: the first of its base in the organization has the base, cut to 100 characters; the
   * n-th has the base, cut to leave room, then a hyphen and n.
   */
  lemma NamesAreNumbered(items: seq<Item>, i: nat)
    requires GroupedByOrg(items) && i < |items|
    ensures var base, n := items[i].base, 1 + |Earlier(items, i, items[i])|;
            var number := "-" + Decimal(n);
            && ValueOf(Decimal(n)) == n
            && (n == 1 ==> NameAt(items, i) == base[..if |base| < 100 then |base| else 100])
            && (n > 1 && |number| < 100 ==>
                  NameAt(items, i) == base[..if |base| < 100 - |number| then |base| else 100 - |number|] + number)
            && (n > 1 && |number| >= 100 ==> NameAt(items, i) == base[..if |base| < 1 then |base| else 1] + number)
  {
    BeforeCounts(items, i, i);
    DecimalReadsBack(1 + |Earlier(items, i, items[i])|);
    NumberedName(items[i].base, Occurrence(items, i));
  }

  /** Two bases cut down to the same stem under the same number. */
  predicate CutAlike(items: seq<Item>, i: nat, j: nat)
    requires i < |items| && j < |items|
  {
    var n := Occurrence(items, i);
    n == Occurrence(items, j) && items[i].base != items[j].base && Stem(items[i].base, n) == Stem(items[j].base, n)
  }

  /** A base that reads like the numbered name of another. */
  predicate ReadsNumbered(items: seq<Item>, i: nat, j: nat)
    requires i < |items| && j < |items|
  {
    var n := Occurrence(items, j);
    Occurrence(items, i) == 1 && n > 1 && Stem(items[i].base, 1) == Stem(items[j].base, n) + "-" + Decimal(n)
  }

  predicate Clash(items: seq<Item>, i: nat, j: nat)
    requires i < |items| && j < |items|
  {
    items[i].org == items[j].org && (CutAlike(items, i, j) || ReadsNumbered(items, i, j))
  }

  lemma SameNumberedName(base: string, m: nat, base': string, n: nat)
    requires m > 1 && n > 1 && NameOf(base, m) == NameOf(base', n)
    ensures m == n && Stem(base, m) == Stem(base', n)
  {
    NumberedName(base, m);
    NumberedName(base', n);
    NumberedSplit(Stem(base, m), m, Stem(base', n), n);
  }

  lemma NumberedName(base: string, n: nat)
    ensures NameOf(base, 1) == Stem(base, 1)
    ensures n > 1 ==> NameOf(base, n) == Stem(base, n) + "-" + Decimal(n)
  {
    if n > 1 {
      assert Stem(base, n) + ("-" + Decimal(n)) == Stem(base, n) + "-" + Decimal(n);
    }
  }

  lemma SameNameIsClash(items: seq<Item>, i: nat, j: nat)
    requires GroupedByOrg(items) && i < |items| && j < |items| && i != j && items[i].org == items[j].org
    ensures NameAt(items, i) == NameAt(items, j) <==> Clash(items, i, j) || Clash(items, j, i)
  {
    var m, n := Occurrence(items, i), Occurrence(items, j);
    var a, b := items[i].base, items[j].base;
    NumberedName(a, m);
    NumberedName(b, n);
    if m > 1 && n > 1 && NameOf(a, m) == NameOf(b, n) {
      SameNumberedName(a, m, b, n);
    }
    if a == b && m == n {
      OccurrenceIdentifies(items, i, j);
    }
  }

  /** The unique constraint can be added exactly when no two rows of an organization clash. */
  lemma ConstraintHoldsExactly(items: seq<Item>)
    requires GroupedByOrg(items)
    ensures NamesDistinct(items) <==> forall i, j | 0 <= i < |items| && 0 <= j < |items| :: i != j ==> !Clash(items, i, j)
  {
    if NamesDistinct(items) {
      forall i, j | 0 <= i < |items| && 0 <= j < |items| && i != j ensures !Clash(items, i, j) {
        if items[i].org == items[j].org {
          SameNameIsClash(items, i, j);
        }
      }
    } else {
      var i, j :| 0 <= i < j < |items| && items[i].org == items[j].org && NameAt(items, i) == NameAt(items, j);
      SameNameIsClash(items, i, j);
    }
  }

  ghost predicate Uncut(items: seq<Item>) {
    forall i | 0 <= i < |items| :: |items[i].base| + |Suffix(Occurrence(items, i))| <= 100
  }

  /** No base of an organization is another one followed by a hyphen and a number. */
  ghost predicate NoNumberedBase(items: seq<Item>) {
    forall i, j, n: nat | 0 <= i < |items| && 0 <= j < |items| && items[i].org == items[j].org && n > 1 ::
      items[i].base != items[j].base + "-" + Decimal(n)
  }

  lemma PlainPairIsApart(items: seq<Item>, i: nat, j: nat)
    requires Uncut(items) && NoNumberedBase(items) && i < |items| && j < |items|
    ensures !Clash(items, i, j)
  {
    var m, n := Occurrence(items, i), Occurrence(items, j);
    assert |items[i].base| + |Suffix(m)| <= 100 && |items[j].base| + |Suffix(n)| <= 100;
    assert Stem(items[i].base, m) == items[i].base && Stem(items[j].base, n) == items[j].base;
    if items[i].org == items[j].org && n > 1 {
      assert items[i].base != items[j].base + "-" + Decimal(n);
    }
  }

  /** Short bases, none of which ends in a hyphen and number after another: all names differ and fit. */
  lemma PlainBasesStayDistinct(items: seq<Item>)
    requires GroupedByOrg(items) && Uncut(items) && NoNumberedBase(items)
    ensures NamesDistinct(items)
    ensures forall i | 0 <= i < |items| :: |NameAt(items, i)| <= 100
  {
    forall i: nat, j: nat | i < |items| && j < |items| && i != j ensures !Clash(items, i, j) {
      PlainPairIsApart(items, i, j);
    }
    ConstraintHoldsExactly(items);
  }

  /** A name fits its column unless the number alone fills it. */
  lemma NameFits(base: string, occurrence: nat)
    requires base != ""
    ensures |NameOf(base, occurrence)| <= 100 <==> |Suffix(occurrence)| <= 99
  {
  }

  /** The bases a, a, a-2: the second and the third row get the same name. */
  lemma NumberedBaseBreaksConstraint(org: string)
    ensures var items := [Item(org, "a"), Item(org, "a"), Item(org, "a-2")];
            GroupedByOrg(items) && Uncut(items) && !NamesDistinct(items)
            && NameAt(items, 1) == NameAt(items, 2) == "a-2"
  {
    var items := [Item(org, "a"), Item(org, "a"), Item(org, "a-2")];
    assert Decimal(2) == "2";
    assert Before(items, 0, org, "a") == 0 && Before(items, 1, org, "a") == 1;
    assert Before(items, 0, org, "a-2") == 0 && items[0].base != "a-2" && items[1].base != "a-2";
    assert Before(items, 1, org, "a-2") == 0;
    assert Before(items, 2, org, "a-2") == 0;
    assert Occurrence(items, 0) == 1 && Occurrence(items, 1) == 2 && Occurrence(items, 2) == 1;
    assert NameOf("a", 2) == "a" + "-2" == "a-2";
    assert NameOf("a-2", 1) == "a-2" + "" == "a-2";
  }

  // ---------------------------------------------------------------- a second pass

  function Renumbered(items: seq<Item>): seq<Item> {
    seq(|items|, i requires 0 <= i < |items| => Item(items[i].org, NameAt(items, i)))
  }

  lemma {:induction false} DistinctBasesComeFirst(items: seq<Item>, i: nat, org: string, base: string)
    requires i <= |items| && forall j | 0 <= j < i :: items[j].org == org ==> items[j].base != base
    ensures Before(items, i, org, base) == 0
  {
    if i > 0 && items[i - 1].org == org {
      DistinctBasesComeFirst(items, i - 1, org, base);
    }
  }

  lemma NumberedIsCanonical(base: string, n: nat)
    requires Canonical(base) && base != "" && n > 0
    requires |base| + |Suffix(n)| <= 100
    ensures Canonical(NameOf(base, n))
  {
    NumberedName(base, n);
    assert Stem(base, n) == base;
    if n > 1 {
      DecimalIsDigits(n);
      HyphenatedIsCanonical(base, Decimal(n));
    }
  }

  lemma HyphenatedIsCanonical(base: string, digits: string)
    requires Canonical(base) && base != ""
    requires digits != "" && forall c :: c in digits ==> '0' <= c <= '9'
    ensures Canonical(base + "-" + digits)
  {
    var name := base + "-" + digits;
    assert name[|name| - 1] == digits[|digits| - 1] && digits[|digits| - 1] in digits;
    forall i | 0 <= i < |name| - 1 ensures !(name[i] == '-' && name[i + 1] == '-') {
      if i >= |base| { assert name[i + 1] == digits[i - |base|] && digits[i - |base|] in digits; }
    }
  }

  lemma DistinctNamesStay(items: seq<Item>, i: nat)
    requires NamesDistinct(items) && i < |items| && |NameAt(items, i)| <= 100
    ensures NameAt(Renumbered(items), i) == NameAt(items, i)
  {
    var name, again := NameAt(items, i), Renumbered(items);
    DistinctBasesComeFirst(again, i, items[i].org, name);
    NumberedName(name, 1);
  }

  /**
   * Names that satisfy the constraint and were not cut are canonical themselves, and a second pass
   * over them keeps every one.
   */
  lemma SecondPassKeepsNames(t: CharTables, items: seq<Item>, i: nat)
    requires Sensible(t) && GroupedByOrg(items) && Uncut(items) && NamesDistinct(items) && i < |items|
    requires forall k | 0 <= k < |items| :: items[k].base != "" && Canonical(items[k].base)
    ensures var name := NameAt(items, i);
            NormalizeGroupKey(t, name) == name && name != "" && NameAt(Renumbered(items), i) == name
  {
    NumberedIsCanonical(items[i].base, Occurrence(items, i));
    NormalizationIsIdempotent(t, NameAt(items, i));
    DistinctNamesStay(items, i);
  }
}
