/** String functions of the source's runtime, on sequences of characters. */
module Strings {
  /**
   * The runtime's character tables: which characters `\s` and `trim` treat as white space, and what
   * each character becomes in lower case.
   */
  datatype CharTables = CharTables(isSpace: char -> bool, lower: char -> string)

  predicate SlugChar(c: char) {
    'a' <= c <= 'z' || '0' <= c <= '9' || c == '-'
  }

  /**
   * What the model needs of the tables: lower-case ASCII letters, digits and hyphens are no white
   * space, and neither they nor white space change in lower case.
   */
  ghost predicate Sensible(t: CharTables) {
    && (forall c | SlugChar(c) :: !t.isSpace(c) && t.lower(c) == [c])
    && (forall c | t.isSpace(c) :: t.lower(c) == [c])
  }

  function TrimLeft(s: string, drop: char -> bool): string {
    if |s| > 0 && drop(s[0]) then TrimLeft(s[1..], drop) else s
  }

  function TrimRight(s: string, drop: char -> bool): string
    decreases |s|
  {
    if |s| > 0 && drop(s[|s| - 1]) then TrimRight(s[..|s| - 1], drop) else s
  }

  /** Drops matching characters at both ends. */
  function Trim(s: string, drop: char -> bool): string {
    TrimRight(TrimLeft(s, drop), drop)
  }

  lemma {:induction false} TrimLeftKeepsEnd(s: string, drop: char -> bool)
    ensures var r := TrimLeft(s, drop); |r| <= |s| && r == s[|s| - |r|..] && (|r| > 0 ==> !drop(r[0]))
    ensures forall k | 0 <= k < |s| - |TrimLeft(s, drop)| :: drop(s[k])
  {
    if |s| > 0 && drop(s[0]) {
      TrimLeftKeepsEnd(s[1..], drop);
    }
  }

  lemma {:induction false} TrimRightKeepsStart(s: string, drop: char -> bool)
    ensures var r := TrimRight(s, drop);
            && |r| <= |s| && r == s[..|r|]
            && (|r| > 0 ==> !drop(r[|r| - 1]))
            && (|s| > 0 && !drop(s[0]) ==> |r| > 0)
            && forall k | |r| <= k < |s| :: drop(s[k])
    decreases |s|
  {
    if |s| > 0 && drop(s[|s| - 1]) {
      TrimRightKeepsStart(s[..|s| - 1], drop);
    }
  }

  /** Trimming cuts out a part of a string that begins and ends with a character to keep. */
  lemma TrimCuts(s: string, drop: char -> bool) returns (lo: nat, hi: nat)
    ensures lo <= hi <= |s| && Trim(s, drop) == s[lo..hi]
    ensures lo < hi ==> !drop(s[lo]) && !drop(s[hi - 1])
    ensures forall k | 0 <= k < lo || hi <= k < |s| :: drop(s[k])
  {
    var left := TrimLeft(s, drop);
    TrimLeftKeepsEnd(s, drop);
    TrimRightKeepsStart(left, drop);
    lo := |s| - |left|;
    hi := lo + |TrimRight(left, drop)|;
  }

  lemma {:induction false} TrimLeftSnoc(s: string, c: char, drop: char -> bool)
    ensures TrimLeft(s + [c], drop)
            == if TrimLeft(s, drop) == "" then (if drop(c) then "" else [c]) else TrimLeft(s, drop) + [c]
  {
    if |s| > 0 {
      assert (s + [c])[1..] == s[1..] + [c];
      TrimLeftSnoc(s[1..], c, drop);
    }
  }

  /** A dropped character at the end does not change what is left of a string. */
  lemma TrimSnoc(s: string, c: char, drop: char -> bool)
    requires drop(c)
    ensures Trim(s + [c], drop) == Trim(s, drop)
  {
    TrimLeftSnoc(s, c, drop);
    var left := TrimLeft(s, drop);
    assert (left + [c])[..|left|] == left;
  }

  lemma {:induction false} TrimOfTrimRight(s: string, drop: char -> bool)
    ensures Trim(TrimRight(s, drop), drop) == Trim(s, drop)
    decreases |s|
  {
    if |s| > 0 && drop(s[|s| - 1]) {
      var front := s[..|s| - 1];
      TrimOfTrimRight(front, drop);
      TrimSnoc(front, s[|s| - 1], drop);
      assert front + [s[|s| - 1]] == s;
    }
  }

  lemma {:induction false} TrimRightConcat(a: string, b: string, drop: char -> bool)
    requires |a| > 0 && !drop(a[|a| - 1])
    ensures TrimRight(a + b, drop) == a + TrimRight(b, drop)
    decreases |b|
  {
    if |b| > 0 && drop(b[|b| - 1]) {
      var front := b[..|b| - 1];
      TrimRightConcat(a, front, drop);
      assert (a + b)[..|a + b| - 1] == a + front;
    } else if |b| == 0 {
      assert a + b == a && a + TrimRight(b, drop) == a;
    }
  }

  function Digit(d: nat): char
    requires d < 10
  {
    '0' + d as char
  }

  /** `String(n)`: the decimal digits of a natural number. */
  function Decimal(n: nat): string {
    if n < 10 then [Digit(n)] else Decimal(n / 10) + [Digit(n % 10)]
  }

  lemma {:induction false} DecimalIsDigits(n: nat)
    ensures var s := Decimal(n); |s| > 0 && (|s| == 1 <==> n < 10) && forall c :: c in s ==> '0' <= c <= '9'
  {
    if n >= 10 { DecimalIsDigits(n / 10); }
  }

  /** The number that digits stand for, the last one counting ones. */
  function ValueOf(digits: string): int {
    if |digits| == 0 then 0 else 10 * ValueOf(digits[..|digits| - 1]) + (digits[|digits| - 1] as int - '0' as int)
  }

  /** The text of a number has its digits and no zero in front. */
  lemma {:induction false} DecimalReadsBack(n: nat)
    ensures var s := Decimal(n); ValueOf(s) == n && (s[0] == '0' ==> n == 0)
  {
    DecimalIsDigits(n);
    if n >= 10 {
      DecimalReadsBack(n / 10);
      DecimalIsDigits(n / 10);
      assert Decimal(n)[..|Decimal(n)| - 1] == Decimal(n / 10);
    }
  }

  lemma {:induction false} DecimalInjective(m: nat, n: nat)
    requires Decimal(m) == Decimal(n)
    ensures m == n
  {
    var s := Decimal(m);
    DecimalIsDigits(m);
    DecimalIsDigits(n);
    assert s[|s| - 1] == Digit(m % 10) == Digit(n % 10);
    if m >= 10 {
      assert Decimal(m / 10) == s[..|s| - 1] == Decimal(n / 10);
      DecimalInjective(m / 10, n / 10);
    }
  }

  /** A stem and a hyphenated tail can be told apart: the tail has no hyphen. */
  lemma HyphenSplit(stem: string, tail: string, stem': string, tail': string)
    requires '-' !in tail && '-' !in tail'
    requires stem + "-" + tail == stem' + "-" + tail'
    ensures stem == stem' && tail == tail'
  {
    var s := stem + "-" + tail;
    forall k | |stem| < k < |s| ensures s[k] != '-' { assert s[k] == tail[k - |stem| - 1]; }
    forall k | |stem'| < k < |s| ensures s[k] != '-' { assert s[k] == tail'[k - |stem'| - 1]; }
    assert s[|stem|] == '-' && s[|stem'|] == '-';
    assert s[..|stem|] == stem && s[..|stem'|] == stem';
    assert s[|stem| + 1..] == tail && s[|stem'| + 1..] == tail';
  }

  /** A numbered name gives away its stem and its number. */
  lemma NumberedSplit(stem: string, m: nat, stem': string, n: nat)
    requires stem + "-" + Decimal(m) == stem' + "-" + Decimal(n)
    ensures stem == stem' && m == n
  {
    DecimalIsDigits(m);
    DecimalIsDigits(n);
    HyphenSplit(stem, Decimal(m), stem', Decimal(n));
    DecimalInjective(m, n);
  }
}
