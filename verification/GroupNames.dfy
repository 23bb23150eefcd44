/**
 * Group keys and scoped upstream names (api/src/services/group-name.service.ts), and the lookup of
 * a group by the name it was created under.
 */
module GroupNames {
  import opened Wrappers
  import opened Strings
  import GroupLinks

  // ---------------------------------------------------------------- normalisation, pass by pass

  function Lower(t: CharTables, s: string): string {
    if |s| == 0 then "" else t.lower(s[0]) + Lower(t, s[1..])
  }

  /** Lower case is taken character by character. */
  lemma {:induction false} LowerIs(t: CharTables, a: string, c: char)
    ensures Lower(t, "") == "" && Lower(t, a + [c]) == Lower(t, a) + t.lower(c)
  {
    if |a| > 0 {
      LowerIs(t, a[1..], c);
      assert (a + [c])[1..] == a[1..] + [c];
    }
  }

  /** Each run of white space becomes one hyphen; `inRun` says whether the previous character was in one. */
  function SpacesToHyphens(t: CharTables, s: string, inRun: bool): string {
    if |s| == 0 then ""
    else if t.isSpace(s[0]) then (if inRun then "" else "-") + SpacesToHyphens(t, s[1..], true)
    else [s[0]] + SpacesToHyphens(t, s[1..], false)
  }

  function KeepSlugChars(s: string): string {
    if |s| == 0 then "" else (if SlugChar(s[0]) then [s[0]] else "") + KeepSlugChars(s[1..])
  }

  lemma {:induction false} KeptAreSlugChars(s: string)
    ensures forall c :: c in KeepSlugChars(s) ==> SlugChar(c)
  {
    if |s| > 0 {
      KeptAreSlugChars(s[1..]);
    }
  }

  function CollapseHyphens(s: string, inRun: bool): string {
    if |s| == 0 then ""
    else if s[0] == '-' then (if inRun then "" else "-") + CollapseHyphens(s[1..], true)
    else [s[0]] + CollapseHyphens(s[1..], false)
  }

  predicate Hyphen(c: char) {
    c == '-'
  }

  /** The passes between the two trims. */
  function Squeeze(t: CharTables, trimmed: string): string {
    CollapseHyphens(KeepSlugChars(SpacesToHyphens(t, Lower(t, trimmed), false)), false)
  }

  function NormalizeGroupKey(t: CharTables, raw: string): string {
    Trim(Squeeze(t, Trim(raw, t.isSpace)), Hyphen)
  }

  /** Lower-case letters, digits and single inner hyphens. */
  predicate Canonical(s: string) {
    && (forall c :: c in s ==> SlugChar(c))
    && NoDouble(s)
    && (|s| > 0 ==> s[0] != '-' && s[|s| - 1] != '-')
  }

  predicate NoDouble(s: string) {
    forall i | 0 <= i < |s| - 1 :: !(s[i] == '-' && s[i + 1] == '-')
  }

  lemma {:induction false} CollapseLeavesNoDouble(s: string, inRun: bool)
    requires forall c :: c in s ==> SlugChar(c)
    ensures var r := CollapseHyphens(s, inRun);
            (forall c :: c in r ==> SlugChar(c)) && NoDouble(r) && (inRun && |r| > 0 ==> r[0] != '-')
  {
    if |s| > 0 {
      assert s[0] in s;
      CollapseLeavesNoDouble(s[1..], s[0] == '-');
      var rest := CollapseHyphens(s[1..], s[0] == '-');
      assert forall i | 0 < i < |rest| :: ([s[0]] + rest)[i] == rest[i - 1];
      assert NoDouble([s[0]] + rest);
    }
  }

  lemma TrimmedIsCanonical(s: string)
    requires (forall c :: c in s ==> SlugChar(c)) && NoDouble(s)
    ensures Canonical(Trim(s, Hyphen))
  {
    var lo, hi := TrimCuts(s, Hyphen);
    assert forall i | 0 <= i < hi - lo :: s[lo..hi][i] == s[lo + i];
  }

  /** Whatever the raw name, the key is canonical. */
  lemma NormalizedIsCanonical(t: CharTables, raw: string)
    ensures Canonical(NormalizeGroupKey(t, raw))
  {
    var spaced := SpacesToHyphens(t, Lower(t, Trim(raw, t.isSpace)), false);
    KeptAreSlugChars(spaced);
    CollapseLeavesNoDouble(KeepSlugChars(spaced), false);
    TrimmedIsCanonical(Squeeze(t, Trim(raw, t.isSpace)));
  }

  lemma {:induction false} PassesKeepCanonical(t: CharTables, s: string)
    requires Sensible(t) && forall c :: c in s ==> SlugChar(c)
    ensures Lower(t, s) == s && SpacesToHyphens(t, s, false) == s && KeepSlugChars(s) == s
  {
    if |s| > 0 {
      PassesKeepCanonical(t, s[1..]);
    }
  }

  lemma {:induction false} CollapseKeepsCanonical(s: string, inRun: bool)
    requires NoDouble(s)
    requires inRun && |s| > 0 ==> s[0] != '-'
    ensures CollapseHyphens(s, inRun) == s
  {
    if |s| > 0 {
      CollapseKeepsCanonical(s[1..], s[0] == '-');
    }
  }

  /** The keys are exactly the fixed points: normalising is idempotent. */
  lemma NormalizationIsIdempotent(t: CharTables, raw: string)
    requires Sensible(t)
    ensures NormalizeGroupKey(t, NormalizeGroupKey(t, raw)) == NormalizeGroupKey(t, raw)
    ensures NormalizeGroupKey(t, raw) == raw <==> Canonical(raw)
  {
    NormalizedIsCanonical(t, raw);
    CanonicalIsFixed(t, NormalizeGroupKey(t, raw));
    if Canonical(raw) { CanonicalIsFixed(t, raw); }
  }

  /** The keys are the texts of lower-case letters, digits and hyphens, no two of them together and none at an end. */
  lemma KeysAre(t: CharTables, s: string)
    requires Sensible(t)
    ensures NormalizeGroupKey(t, s) == s
            <==> && (forall i | 0 <= i < |s| :: 'a' <= s[i] <= 'z' || '0' <= s[i] <= '9' || s[i] == '-')
                 && (forall i | 0 < i < |s| :: !(s[i - 1] == '-' && s[i] == '-'))
                 && !(s != "" && (s[0] == '-' || s[|s| - 1] == '-'))
  {
    NormalizationIsIdempotent(t, s);
    assert forall i | 0 <= i < |s| :: s[i] in s;
    assert NoDouble(s) <==> forall i | 0 < i < |s| :: !(s[i - 1] == '-' && s[i] == '-') by {
      if NoDouble(s) {
        forall i | 0 < i < |s| ensures !(s[i - 1] == '-' && s[i] == '-') { assert !(s[i - 1] == '-' && s[i - 1 + 1] == '-'); }
      } else {
        var i :| 0 <= i < |s| - 1 && s[i] == '-' && s[i + 1] == '-';
        assert s[i + 1 - 1] == '-';
      }
    }
  }

  lemma TrimKeepsCanonical(t: CharTables, s: string)
    requires Sensible(t) && Canonical(s)
    ensures Trim(s, t.isSpace) == s && Trim(s, Hyphen) == s
  {
    if |s| > 0 {
      assert s[0] in s && s[|s| - 1] in s;
    }
  }

  lemma CanonicalIsFixed(t: CharTables, s: string)
    requires Sensible(t) && Canonical(s)
    ensures NormalizeGroupKey(t, s) == s
  {
    TrimKeepsCanonical(t, s);
    PassesKeepCanonical(t, s);
    CollapseKeepsCanonical(s, false);
  }

  // ---------------------------------------------------------------- scoped names

  /** Hex digests of fixed length, otherwise uninterpreted. */
  datatype Digests = Digests(org: string -> string, name: string -> string)

  ghost predicate FixedLength(d: Digests) {
    forall s :: |d.org(s)| == 10 && |d.name(s)| == 8
  }

  const MAX_NAME := 100

  function Scoped(d: Digests, org: string, key: string): string {
    var prefix := "cpg-" + d.org(org) + "-";
    var suffix := "-" + d.name(key);
    var room := if MAX_NAME - |prefix| - |suffix| > 1 then MAX_NAME - |prefix| - |suffix| else 1;
    prefix + (if |key| <= room then key else key[..room]) + suffix
  }

  /** `None` is the rejection of a name without a letter or digit. */
  function ScopedGroupName(t: CharTables, d: Digests, org: string, publicName: string): Option<string> {
    var normalized := NormalizeGroupKey(t, publicName);
    if normalized == "" then None else Some(Scoped(d, org, normalized))
  }

  /** A scoped name is the prefix, the digest of the organization, up to 76 characters of the key, and the key's digest. */
  lemma ScopedIs(t: CharTables, d: Digests, org: string, publicName: string)
    requires FixedLength(d)
    ensures var key, scoped := NormalizeGroupKey(t, publicName), ScopedGroupName(t, d, org, publicName);
            && (scoped.None? <==> key == "")
            && (scoped.Some? ==> scoped.value == "cpg-" + d.org(org) + "-" + key[..if |key| < 76 then |key| else 76] + "-" + d.name(key))
  {
    var key := NormalizeGroupKey(t, publicName);
    if |key| <= 76 { assert key[..|key|] == key; }
  }

  /** The scoped name fits its column and shows both digests. */
  lemma ScopedParts(d: Digests, org: string, key: string)
    requires FixedLength(d)
    ensures var r := Scoped(d, org, key);
            24 <= |r| <= MAX_NAME && r[4..14] == d.org(org) && r[|r| - 8..] == d.name(key)
  {
    var head := "cpg-" + d.org(org) + "-";
    var base := if |key| <= 76 then key else key[..76];
    assert |head| == 15 && head[4..14] == d.org(org);
    assert Scoped(d, org, key) == head + (base + ("-" + d.name(key)));
  }

  lemma ScopedApart(d: Digests, org: string, key: string, org': string, key': string)
    requires FixedLength(d)
    ensures |Scoped(d, org, key)| <= MAX_NAME
    ensures Scoped(d, org, key) == Scoped(d, org', key') ==> d.org(org) == d.org(org') && d.name(key) == d.name(key')
  {
    ScopedParts(d, org, key);
    ScopedParts(d, org', key');
  }

  /**
   * A name is scoped unless it has no letter or digit; the result depends on the organization and
   * the key alone, not on the spelling, and two organizations or keys that the digests tell apart
   * get different names.
   */
  lemma ScopedNames(t: CharTables, d: Digests, org: string, a: string, org': string, b: string)
    requires Sensible(t) && FixedLength(d)
    ensures ScopedGroupName(t, d, org, a).None? <==> forall c :: c in NormalizeGroupKey(t, a) ==> c == '-'
    ensures ScopedGroupName(t, d, org, NormalizeGroupKey(t, a)) == ScopedGroupName(t, d, org, a)
    ensures NormalizeGroupKey(t, a) == NormalizeGroupKey(t, b) ==> ScopedGroupName(t, d, org, a) == ScopedGroupName(t, d, org, b)
    ensures var x, y := ScopedGroupName(t, d, org, a), ScopedGroupName(t, d, org', b);
            x.Some? && x == y ==> |x.value| <= MAX_NAME && d.org(org) == d.org(org')
                                  && d.name(NormalizeGroupKey(t, a)) == d.name(NormalizeGroupKey(t, b))
  {
    var ka, kb := NormalizeGroupKey(t, a), NormalizeGroupKey(t, b);
    NormalizationIsIdempotent(t, a);
    NormalizedIsCanonical(t, a);
    if ka != "" { assert ka[0] in ka && ka[0] != '-'; }
    ScopedApart(d, org, ka, org', kb);
  }


  // ---------------------------------------------------------------- lookup by name

  /** The UNIQUE(organization, public_name) constraint. */
  ghost predicate PublicNamesDistinct(w: GroupLinks.Store) {
    forall k, l :: k in w.links && l in w.links && k.0 == l.0 && w.links[k].publicName == w.links[l].publicName ==> k == l
  }

  predicate FindsKey(w: GroupLinks.Store, org: nat, key: string, g: nat) {
    (org, g) in w.links && w.links[(org, g)].publicName == key
  }

  predicate Finds(t: CharTables, w: GroupLinks.Store, org: nat, name: string, g: nat) {
    FindsKey(w, org, NormalizeGroupKey(t, name), g)
  }

  lemma LinkedIsFound(w: GroupLinks.Store, org: nat, g: nat, link: GroupLinks.Link, key: string)
    requires PublicNamesDistinct(w) && (org, g) !in w.links
    ensures var linked := GroupLinks.LinkOrganizationGroup(w, org, g, link);
            linked.Some? ==>
              && PublicNamesDistinct(linked.value)
              && (FindsKey(linked.value, org, key, g) <==> key == link.publicName)
              && (forall other :: FindsKey(linked.value, org, link.publicName, other) ==> other == g)
  {
  }

  /**
   * A group linked under a raw name is found by that name, by the stored name and by every other
   * spelling of it, and no other group of the organization is.
   */
  lemma LookupFindsCreated(t: CharTables, w: GroupLinks.Store, org: nat, g: nat, raw: string, visibility: string,
                           name: string, other: nat)
    requires Sensible(t) && PublicNamesDistinct(w) && (org, g) !in w.links
    ensures var linked := GroupLinks.LinkOrganizationGroup(w, org, g, GroupLinks.Link(NormalizeGroupKey(t, raw), visibility));
            linked.Some? ==>
              && PublicNamesDistinct(linked.value)
              && Finds(t, linked.value, org, raw, g)
              && Finds(t, linked.value, org, NormalizeGroupKey(t, raw), g)
              && (Finds(t, linked.value, org, name, g) <==> NormalizeGroupKey(t, name) == NormalizeGroupKey(t, raw))
              && (Finds(t, linked.value, org, raw, other) ==> other == g)
  {
    var key := NormalizeGroupKey(t, raw);
    NormalizationIsIdempotent(t, raw);
    LinkedIsFound(w, org, g, GroupLinks.Link(key, visibility), NormalizeGroupKey(t, name));
    LinkedIsFound(w, org, g, GroupLinks.Link(key, visibility), key);
  }
}
