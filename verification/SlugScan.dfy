/**
 * The six passes of normalizeGroupKey (api/src/services/group-name.service.ts:6-14) say the same as
 * one scan that joins the words of a name by single hyphens.
 */
module SlugScan {
  import opened Strings
  import opened GroupNames

  /**
   * Letters and digits are kept, white space and hyphens part words, everything else is skipped.
   * `gap`: a parting was seen since the last kept character; `begun`: something has been kept.
   */
  function Scan(t: CharTables, s: string, gap: bool, begun: bool): string {
    if |s| == 0 then ""
    else if t.isSpace(s[0]) || s[0] == '-' then Scan(t, s[1..], true, begun)
    else if SlugChar(s[0]) then (if gap && begun then "-" else "") + [s[0]] + Scan(t, s[1..], false, true)
    else Scan(t, s[1..], gap, begun)
  }

  lemma {:induction false} SpacesScanAlike(t: CharTables, s: string, inRun: bool, gap: bool, begun: bool)
    requires Sensible(t) && (inRun ==> gap)
    ensures Scan(t, SpacesToHyphens(t, s, inRun), gap, begun) == Scan(t, s, gap, begun)
    ensures forall c :: c in SpacesToHyphens(t, s, inRun) ==> !t.isSpace(c)
  {
    if |s| > 0 {
      var parted := t.isSpace(s[0]);
      var rest := SpacesToHyphens(t, s[1..], parted);
      SpacesScanAlike(t, s[1..], parted, parted || s[0] == '-' || (gap && !SlugChar(s[0])), begun || (SlugChar(s[0]) && s[0] != '-'));
      assert SlugChar('-');
      assert ("-" + rest)[1..] == rest && ([s[0]] + rest)[1..] == rest && "" + rest == rest;
    }
  }

  lemma {:induction false} KeptScanAlike(t: CharTables, s: string, gap: bool, begun: bool)
    requires forall c :: c in s ==> !t.isSpace(c)
    ensures Scan(t, KeepSlugChars(s), gap, begun) == Scan(t, s, gap, begun)
  {
    if |s| > 0 {
      var rest := KeepSlugChars(s[1..]);
      assert s[0] in s && ([s[0]] + rest)[1..] == rest && "" + rest == rest;
      KeptScanAlike(t, s[1..], s[0] == '-' || (gap && !SlugChar(s[0])), begun || (SlugChar(s[0]) && s[0] != '-'));
    }
  }

  lemma {:induction false} CollapsedScanAlike(t: CharTables, s: string, inRun: bool, gap: bool, begun: bool)
    requires (inRun ==> gap) && forall c :: c in s ==> SlugChar(c) && !t.isSpace(c)
    ensures Scan(t, CollapseHyphens(s, inRun), gap, begun) == Scan(t, s, gap, begun)
  {
    if |s| > 0 {
      var rest := CollapseHyphens(s[1..], s[0] == '-');
      assert s[0] in s && ("-" + rest)[1..] == rest && ([s[0]] + rest)[1..] == rest && "" + rest == rest;
      CollapsedScanAlike(t, s[1..], s[0] == '-', s[0] == '-', begun || s[0] != '-');
    }
  }

  ghost predicate Parts(t: CharTables, drop: char -> bool) {
    forall c :: drop(c) ==> t.isSpace(c) || c == '-'
  }

  lemma {:induction false} LeftTrimScansAlike(t: CharTables, s: string, drop: char -> bool, gap: bool)
    requires Parts(t, drop)
    ensures Scan(t, TrimLeft(s, drop), false, false) == Scan(t, s, gap, false)
  {
    if |s| > 0 && drop(s[0]) {
      LeftTrimScansAlike(t, s[1..], drop, true);
    } else {
      GapBeforeFirst(t, s, gap);
    }
  }

  /** Nothing kept yet, a parting leaves no hyphen. */
  lemma {:induction false} GapBeforeFirst(t: CharTables, s: string, gap: bool)
    ensures Scan(t, s, gap, false) == Scan(t, s, false, false)
  {
    if |s| > 0 && !t.isSpace(s[0]) && s[0] != '-' && !SlugChar(s[0]) {
      GapBeforeFirst(t, s[1..], gap);
    }
  }

  lemma {:induction false} LastPartingScansAlike(t: CharTables, s: string, c: char, gap: bool, begun: bool)
    requires t.isSpace(c) || c == '-'
    ensures Scan(t, s + [c], gap, begun) == Scan(t, s, gap, begun)
  {
    if |s| > 0 {
      assert (s + [c])[1..] == s[1..] + [c];
      var parted := t.isSpace(s[0]) || s[0] == '-';
      LastPartingScansAlike(t, s[1..], c, parted || (gap && !SlugChar(s[0])), begun || (!parted && SlugChar(s[0])));
    } else {
      assert Scan(t, [c][1..], true, begun) == "";
    }
  }

  lemma {:induction false} RightTrimScansAlike(t: CharTables, s: string, drop: char -> bool)
    requires Parts(t, drop)
    ensures Scan(t, TrimRight(s, drop), false, false) == Scan(t, s, false, false)
  {
    if |s| > 0 && drop(s[|s| - 1]) {
      RightTrimScansAlike(t, s[..|s| - 1], drop);
      LastPartingScansAlike(t, s[..|s| - 1], s[|s| - 1], false, false);
      assert s[..|s| - 1] + [s[|s| - 1]] == s;
    }
  }

  lemma TrimScansAlike(t: CharTables, s: string, drop: char -> bool)
    requires Parts(t, drop)
    ensures Scan(t, Trim(s, drop), false, false) == Scan(t, s, false, false)
  {
    LeftTrimScansAlike(t, s, drop, false);
    RightTrimScansAlike(t, TrimLeft(s, drop), drop);
  }

  lemma {:induction false} CanonicalScansToItself(t: CharTables, s: string, gap: bool, begun: bool)
    requires Sensible(t) && (forall c :: c in s ==> SlugChar(c)) && NoDouble(s)
    requires |s| > 0 ==> s[|s| - 1] != '-' && (s[0] == '-' ==> begun && !gap)
    requires |s| == 0 ==> !gap || !begun
    ensures Scan(t, s, gap, begun) == (if gap && begun then "-" else "") + s
  {
    if |s| > 0 {
      assert s[0] in s;
      CanonicalScansToItself(t, s[1..], s[0] == '-', begun || s[0] != '-');
    }
  }

  lemma SqueezeScansAlike(t: CharTables, s: string)
    requires Sensible(t)
    ensures Scan(t, Squeeze(t, s), false, false) == Scan(t, Lower(t, s), false, false)
  {
    var lowered := Lower(t, s);
    var spaced := SpacesToHyphens(t, lowered, false);
    SpacesScanAlike(t, lowered, false, false, false);
    KeptScanAlike(t, spaced, false, false);
    KeptAreSlugChars(spaced);
    CollapsedScanAlike(t, KeepSlugChars(spaced), false, false, false);
  }

  /** Trimming before lower-casing trims the lower-cased name. */
  lemma {:induction false} LowerOfConcat(t: CharTables, a: string, b: string)
    ensures Lower(t, a + b) == Lower(t, a) + Lower(t, b)
  {
    if |a| > 0 {
      assert (a + b)[1..] == a[1..] + b;
      LowerOfConcat(t, a[1..], b);
    } else {
      assert a + b == b;
    }
  }

  lemma {:induction false} LowerLeftTrim(t: CharTables, s: string)
    requires Sensible(t)
    ensures Scan(t, Lower(t, TrimLeft(s, t.isSpace)), false, false) == Scan(t, Lower(t, s), false, false)
  {
    if |s| > 0 && t.isSpace(s[0]) {
      LowerLeftTrim(t, s[1..]);
      var rest := Lower(t, s[1..]);
      assert Lower(t, s)[0] == s[0] && Lower(t, s)[1..] == rest;
      GapBeforeFirst(t, rest, true);
    }
  }

  lemma {:induction false} LowerRightTrim(t: CharTables, s: string)
    requires Sensible(t)
    ensures Scan(t, Lower(t, TrimRight(s, t.isSpace)), false, false) == Scan(t, Lower(t, s), false, false)
  {
    if |s| > 0 && t.isSpace(s[|s| - 1]) {
      var front, last := s[..|s| - 1], s[|s| - 1];
      LowerRightTrim(t, front);
      LowerOfConcat(t, front, [last]);
      assert front + [last] == s && Lower(t, [last]) == [last];
      LastPartingScansAlike(t, Lower(t, front), last, false, false);
    }
  }

  /** The pipeline of passes computes the one-scan form, on every raw name. */
  lemma NormalizationIsOneScan(t: CharTables, raw: string)
    requires Sensible(t)
    ensures NormalizeGroupKey(t, raw) == Scan(t, Lower(t, raw), false, false)
  {
    var key, trimmed := NormalizeGroupKey(t, raw), Trim(raw, t.isSpace);
    NormalizedIsCanonical(t, raw);
    CanonicalScansToItself(t, key, false, false);
    TrimScansAlike(t, Squeeze(t, trimmed), Hyphen);
    SqueezeScansAlike(t, trimmed);
    LowerRightTrim(t, TrimLeft(raw, t.isSpace));
    LowerLeftTrim(t, raw);
  }

  predicate LetterOrDigit(c: char) {
    SlugChar(c) && c != '-'
  }

  lemma {:induction false} ScanIsEmptyExactly(t: CharTables, s: string, gap: bool)
    requires Sensible(t)
    ensures Scan(t, s, gap, false) == "" <==> forall c :: c in s ==> !LetterOrDigit(c)
  {
    if |s| > 0 {
      assert s[0] in s && forall c :: c in s <==> c == s[0] || c in s[1..];
      ScanIsEmptyExactly(t, s[1..], t.isSpace(s[0]) || s[0] == '-' || gap);
    }
  }

  /** A group name is rejected exactly when, in lower case, it has no letter from a to z and no digit. */
  lemma RejectedExactly(t: CharTables, d: Digests, org: string, raw: string)
    requires Sensible(t)
    ensures ScopedGroupName(t, d, org, raw).None? <==> forall c :: c in Lower(t, raw) ==> !LetterOrDigit(c)
  {
    NormalizationIsOneScan(t, raw);
    ScanIsEmptyExactly(t, Lower(t, raw), false);
  }
}
