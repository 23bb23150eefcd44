/**
 * The bounded search for a free name (api/src/services/group-copy-name.service.ts).
 *
 * `sanitizeSlug` is not part of this model: the search starts from the sanitized base. The names
 * that `exists` answers for are a set, and the two random strings are parameters.
 */
module NameSearch {
  import opened Strings
  import opened GroupNames

  const MAX_ATTEMPTS: nat := 50

  function Prefix(s: string, n: int): string {
    if n <= 0 then "" else if n < |s| then s[..n] else s
  }

  function BuildNameCandidate(base: string, suffix: string, maxLength: nat): string {
    TrimRight(Prefix(base, maxLength - |suffix|), Hyphen) + suffix
  }

  function Suffix(i: nat): string {
    if i == 0 then "" else "-" + Decimal(i + 1)
  }

  /** The candidate of attempt `i`. */
  function Candidate(base: string, maxLength: nat, i: nat): string {
    BuildNameCandidate(base, Suffix(i), maxLength)
  }

  predicate Acceptable(name: string) {
    name != "" && name[0] != '-'
  }

  function FallbackRandomName(fallbackPrefix: string, random: string, maxLength: nat): string {
    Prefix(fallbackPrefix + "-" + random, maxLength)
  }

  /** A base the search can build on: not empty, no hyphen at either end. */
  predicate Trimmed(base: string) {
    base != "" && base[0] != '-' && base[|base| - 1] != '-'
  }

  // ---------------------------------------------------------------- the candidates

  lemma SuffixIsShort(i: nat)
    requires i < MAX_ATTEMPTS
    ensures |Suffix(i)| <= 3
  {
    assert i + 1 >= 10 ==> |Decimal((i + 1) / 10)| == 1;
  }

  /**
   * A candidate is as much of the base as leaves room for the suffix, without hyphens at the cut, and
   * then the suffix.
   */
  lemma CandidateIs(base: string, suffix: string, maxLength: nat)
    ensures var c := BuildNameCandidate(base, suffix, maxLength);
            exists n: nat :: n <= |base| && c == base[..n] + suffix && (n > 0 ==> base[n - 1] != '-' && n + |suffix| <= maxLength)
                             && forall k | n <= k < |base| && k + |suffix| < maxLength :: base[k] == '-'
  {
    var stem := Prefix(base, maxLength - |suffix|);
    TrimRightKeepsStart(stem, Hyphen);
    var n := |TrimRight(stem, Hyphen)|;
    assert stem[..n] == base[..n];
  }

  /** The suffix of the first attempt is empty, and that of every later one a hyphen and the number of the attempt. */
  lemma SuffixIs(i: nat)
    ensures Suffix(0) == "" && (i > 0 ==> Suffix(i) == "-" + Decimal(i + 1))
    ensures ValueOf(Decimal(i + 1)) == i + 1
  {
    DecimalReadsBack(i + 1);
  }

  lemma RandomNameFits(fallbackPrefix: string, random: string, maxLength: nat)
    ensures var name := FallbackRandomName(fallbackPrefix, random, maxLength);
            && |name| <= maxLength && name <= fallbackPrefix + "-" + random
            && (|fallbackPrefix + "-" + random| <= maxLength ==> name == fallbackPrefix + "-" + random)
            && (|fallbackPrefix + "-" + random| > maxLength ==> |name| == maxLength)
  {
  }

  /** Room for one character of the base is enough: every candidate is usable and fits. */
  lemma CandidateFits(base: string, maxLength: nat, i: nat)
    requires Trimmed(base) && 4 <= maxLength && i < MAX_ATTEMPTS
    ensures var c := Candidate(base, maxLength, i);
            Acceptable(c) && |c| <= maxLength && c[0] == base[0] && (|base| <= maxLength ==> Candidate(base, maxLength, 0) == base)
  {
    SuffixIsShort(i);
    var stem := Prefix(base, maxLength - |Suffix(i)|);
    assert |stem| > 0 && stem[0] == base[0];
    var cut := TrimRight(stem, Hyphen);
    TrimRightKeepsStart(stem, Hyphen);
    assert cut == stem[..|cut|];
  }

  /** Below four, some candidate is unusable: the bound on `maxLength` is exact. */
  lemma UsableFromFour(base: string, maxLength: nat)
    requires Trimmed(base)
    ensures (forall i | 0 <= i < MAX_ATTEMPTS :: Acceptable(Candidate(base, maxLength, i))) <==> 4 <= maxLength
  {
    if 4 <= maxLength {
      forall i | 0 <= i < MAX_ATTEMPTS ensures Acceptable(Candidate(base, maxLength, i)) {
        CandidateFits(base, maxLength, i);
      }
    } else {
      assert Decimal(10) == Decimal(1) + "0";
      var c := Candidate(base, maxLength, 9);
      assert |Suffix(9)| == 3;
      assert Prefix(base, maxLength - 3) == "" && c[0] == '-';
      assert !Acceptable(c);
    }
  }

  function Stem(base: string, maxLength: nat, i: nat): string {
    TrimRight(Prefix(base, maxLength - |Suffix(i)|), Hyphen)
  }

  lemma SuffixedShape(base: string, maxLength: nat, i: nat)
    requires 0 < i
    ensures Candidate(base, maxLength, i) == Stem(base, maxLength, i) + "-" + Decimal(i + 1)
  {
    assert Suffix(i) == "-" + Decimal(i + 1);
  }

  lemma SuffixedApart(base: string, maxLength: nat, i: nat, j: nat)
    requires 0 < i && 0 < j && Candidate(base, maxLength, i) == Candidate(base, maxLength, j)
    ensures i == j
  {
    SuffixedShape(base, maxLength, i);
    SuffixedShape(base, maxLength, j);
    NumberedSplit(Stem(base, maxLength, i), i + 1, Stem(base, maxLength, j), j + 1);
  }

  ghost function Image(f: nat -> string, n: nat): set<string> {
    set i: nat | 0 < i <= n :: f(i)
  }

  lemma ImageNext(f: nat -> string, n: nat)
    requires n > 0
    ensures Image(f, n) == Image(f, n - 1) + {f(n)}
  {
    forall name ensures name in Image(f, n) <==> name in Image(f, n - 1) + {f(n)} {
      if name in Image(f, n) {
        var i: nat :| 0 < i <= n && f(i) == name;
      }
    }
  }

  lemma {:induction false} InjectiveCount(f: nat -> string, n: nat)
    requires forall i: nat, j: nat | 0 < i < j <= n :: f(i) != f(j)
    ensures |Image(f, n)| == n
  {
    if n > 0 {
      InjectiveCount(f, n - 1);
      ImageNext(f, n);
      assert f(n) !in Image(f, n - 1);
    }
  }

  function Candidates(base: string, maxLength: nat): nat -> string {
    (i: nat) => Candidate(base, maxLength, i)
  }

  /** The candidates of attempts 1 to n. */
  ghost function Suffixed(base: string, maxLength: nat, n: nat): set<string> {
    Image(Candidates(base, maxLength), n)
  }

  lemma SuffixedMembers(base: string, maxLength: nat, n: nat, name: string)
    ensures name in Suffixed(base, maxLength, n) <==> exists i: nat | 0 < i <= n :: Candidate(base, maxLength, i) == name
  {
    var f := Candidates(base, maxLength);
    if name in Suffixed(base, maxLength, n) {
      var i: nat :| 0 < i <= n && f(i) == name;
      assert Candidate(base, maxLength, i) == name;
    }
    if i: nat :| 0 < i <= n && Candidate(base, maxLength, i) == name {
      assert f(i) in Image(f, n);
    }
  }

  /** Different attempts give different names, so n suffixed attempts give n names. */
  lemma SuffixedCount(base: string, maxLength: nat, n: nat)
    ensures |Suffixed(base, maxLength, n)| == n
  {
    var f := Candidates(base, maxLength);
    forall i: nat, j: nat | 0 < i < j <= n ensures f(i) != f(j) {
      if f(i) == f(j) { SuffixedApart(base, maxLength, i, j); }
    }
    InjectiveCount(f, n);
  }

  /** Pigeonhole: fewer than 49 taken names leave a suffixed candidate free. */
  lemma SomeCandidateIsFree(base: string, maxLength: nat, taken: set<string>)
    requires |taken| < 49
    ensures exists i | 0 < i < 50 :: Candidate(base, maxLength, i) !in taken
  {
    var all := Suffixed(base, maxLength, MAX_ATTEMPTS - 1);
    SuffixedCount(base, maxLength, MAX_ATTEMPTS - 1);
    if all <= taken {
      SubsetCount(all, taken);
    }
    var free :| free in all && free !in taken;
    SuffixedMembers(base, maxLength, MAX_ATTEMPTS - 1, free);
  }

  lemma SubsetCount<T>(a: set<T>, b: set<T>)
    requires a <= b
    ensures |a| <= |b|
  {
    assert b == a + (b - a) && a !! (b - a);
  }

  /** 49 taken names can block the search, the unsuffixed candidate included. */
  lemma FortyNineCanBlock() returns (taken: set<string>)
    ensures |taken| == 49
    ensures Trimmed("aaaa-2")
    ensures forall i | 0 <= i < 50 :: Candidate("aaaa-2", 6, i) in taken
  {
    taken := Suffixed("aaaa-2", 6, MAX_ATTEMPTS - 1);
    SuffixedCount("aaaa-2", 6, MAX_ATTEMPTS - 1);
    assert Decimal(2) == "2";
    assert Prefix("aaaa-2", 4) == "aaaa";
    assert Candidate("aaaa-2", 6, 1) == "aaaa" + "-2" == "aaaa-2";
    assert Candidate("aaaa-2", 6, 0) == "aaaa-2" + "" == "aaaa-2";
    forall i | 0 <= i < MAX_ATTEMPTS ensures Candidate("aaaa-2", 6, i) in taken {
      SuffixedMembers("aaaa-2", 6, MAX_ATTEMPTS - 1, Candidate("aaaa-2", 6, i));
    }
  }

  // ---------------------------------------------------------------- the search

  /** Attempts before `k` met usable names, all of them taken. */
  ghost predicate AllTaken(base: string, maxLength: nat, taken: set<string>, k: nat) {
    forall i | 0 <= i < k :: Acceptable(Candidate(base, maxLength, i)) && Candidate(base, maxLength, i) in taken
  }

  /** `name` is the answer of attempt `k`, the first that did not meet a usable name in use. */
  ghost predicate AnswersAt(base: string, maxLength: nat, taken: set<string>, randomName: string, k: nat, name: string) {
    && AllTaken(base, maxLength, taken, k)
    && var c := Candidate(base, maxLength, k);
       if Acceptable(c) then c !in taken && name == c else name == randomName
  }

  /**
   * What the search answers: the first free candidate of fifty; a random name only without a base,
   * at an unusable candidate or with all fifty taken.
   */
  ghost predicate FirstFree(base: string, maxLength: nat, taken: set<string>, randomName: string, random6: string, name: string) {
    if base == "" then name == randomName
    else if AllTaken(base, maxLength, taken, MAX_ATTEMPTS) then
      var last := BuildNameCandidate(base, "-" + random6, maxLength);
      name == if last != "" then last else randomName
    else exists k | 0 <= k < MAX_ATTEMPTS :: AnswersAt(base, maxLength, taken, randomName, k, name)
  }

  lemma AnsweredIsFirstFree(base: string, maxLength: nat, taken: set<string>, randomName: string, random6: string, k: nat, name: string)
    requires base != "" && k < MAX_ATTEMPTS && AnswersAt(base, maxLength, taken, randomName, k, name)
    ensures FirstFree(base, maxLength, taken, randomName, random6, name)
  {
  }

  lemma OneMoreTaken(base: string, maxLength: nat, taken: set<string>, k: nat)
    requires AllTaken(base, maxLength, taken, k)
    requires Acceptable(Candidate(base, maxLength, k)) && Candidate(base, maxLength, k) in taken
    ensures AllTaken(base, maxLength, taken, k + 1)
  {
  }

  method FindAvailableName(safeBase: string, maxLength: nat, fallbackPrefix: string, taken: set<string>,
                           random8: string, random6: string) returns (name: string)
    ensures FirstFree(Trim(safeBase, Hyphen), maxLength, taken, FallbackRandomName(fallbackPrefix, random8, maxLength), random6, name)
  {
    var base := Trim(safeBase, Hyphen);
    var randomName := FallbackRandomName(fallbackPrefix, random8, maxLength);
    if base == "" {
      return randomName;
    }
    for i := 0 to MAX_ATTEMPTS
      invariant AllTaken(base, maxLength, taken, i)
    {
      var candidate := BuildNameCandidate(base, Suffix(i), maxLength);
      if candidate == "" || candidate[0] == '-' {
        AnsweredIsFirstFree(base, maxLength, taken, randomName, random6, i, randomName);
        return randomName;
      }
      if candidate !in taken {
        AnsweredIsFirstFree(base, maxLength, taken, randomName, random6, i, candidate);
        return candidate;
      }
      OneMoreTaken(base, maxLength, taken, i);
    }
    var fallback := BuildNameCandidate(base, "-" + random6, maxLength);
    if fallback == "" {
      return randomName;
    }
    return fallback;
  }

  /** `FirstFree` pins one answer: no two attempts can both be the first. */
  lemma AnswerIsUnique(base: string, maxLength: nat, taken: set<string>, randomName: string, random6: string, a: string, b: string)
    requires FirstFree(base, maxLength, taken, randomName, random6, a)
    requires FirstFree(base, maxLength, taken, randomName, random6, b)
    ensures a == b
  {
    if base != "" && !AllTaken(base, maxLength, taken, MAX_ATTEMPTS) {
      var i :| 0 <= i < MAX_ATTEMPTS && AnswersAt(base, maxLength, taken, randomName, i, a);
      var j :| 0 <= j < MAX_ATTEMPTS && AnswersAt(base, maxLength, taken, randomName, j, b);
      assert !(i < j) && !(j < i);
    }
  }

  lemma TrimmedBase(safeBase: string)
    ensures Trim(safeBase, Hyphen) != "" ==> Trimmed(Trim(safeBase, Hyphen))
  {
    var lo, hi := TrimCuts(safeBase, Hyphen);
  }

  /**
   * With room for four characters and fewer than 49 names taken, the answer is a free, fitting and
   * deterministic name, never a random one.
   */
  lemma FewTakenFindsName(safeBase: string, maxLength: nat, taken: set<string>, randomName: string, random6: string, name: string)
    requires Trim(safeBase, Hyphen) != "" && 4 <= maxLength && |taken| < 49
    requires FirstFree(Trim(safeBase, Hyphen), maxLength, taken, randomName, random6, name)
    ensures name !in taken && 0 < |name| <= maxLength && name[0] != '-'
    ensures exists k | 0 <= k < 50 ::
              name == Candidate(Trim(safeBase, Hyphen), maxLength, k) && AllTaken(Trim(safeBase, Hyphen), maxLength, taken, k)
  {
    var base := Trim(safeBase, Hyphen);
    TrimmedBase(safeBase);
    FewTakenLeaveOne(base, maxLength, taken, randomName, random6, name);
  }

  lemma FewTakenLeaveOne(base: string, maxLength: nat, taken: set<string>, randomName: string, random6: string, name: string)
    requires Trimmed(base) && 4 <= maxLength && |taken| < MAX_ATTEMPTS - 1
    requires FirstFree(base, maxLength, taken, randomName, random6, name)
    ensures name !in taken && 0 < |name| <= maxLength && name[0] != '-'
    ensures exists k | 0 <= k < MAX_ATTEMPTS :: name == Candidate(base, maxLength, k) && AllTaken(base, maxLength, taken, k)
  {
    SomeCandidateIsFree(base, maxLength, taken);
    var k :| 0 <= k < MAX_ATTEMPTS && AnswersAt(base, maxLength, taken, randomName, k, name);
    CandidateFits(base, maxLength, k);
  }

  /**
   * Whatever is taken: with room for four characters, the answer is random only when all fifty
   * candidates are taken.
   */
  lemma RandomOnlyWhenExhausted(base: string, maxLength: nat, taken: set<string>, randomName: string, random6: string, name: string)
    requires Trimmed(base) && 4 <= maxLength
    requires FirstFree(base, maxLength, taken, randomName, random6, name)
    ensures (exists k | 0 <= k < 50 :: Candidate(base, maxLength, k) !in taken)
            <==> name !in taken && exists k | 0 <= k < 50 :: name == Candidate(base, maxLength, k)
  {
    UsableFromFour(base, maxLength);
    if k :| 0 <= k < MAX_ATTEMPTS && Candidate(base, maxLength, k) !in taken {
      assert !AllTaken(base, maxLength, taken, MAX_ATTEMPTS);
      var first :| 0 <= first < MAX_ATTEMPTS && AnswersAt(base, maxLength, taken, randomName, first, name);
    }
  }
}
