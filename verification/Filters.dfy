/** Filtering a sequence: what is kept, how often, and in which order. */
module Filters {
  function Only<T>(p: T -> bool, s: seq<T>): seq<T>
    decreases |s|
  {
    if |s| == 0 then [] else Only(p, s[..|s| - 1]) + if p(s[|s| - 1]) then [s[|s| - 1]] else []
  }

  /** The elements with the property, in their order. */
  lemma OnlyNext<T>(p: T -> bool, s: seq<T>, x: T)
    ensures Only(p, []) == [] && Only(p, s + [x]) == Only(p, s) + if p(x) then [x] else []
  {
    assert (s + [x])[..|s|] == s;
  }

  lemma {:induction false} OnlyCounts<T>(p: T -> bool, s: seq<T>, x: T)
    ensures multiset(Only(p, s))[x] == if p(x) then multiset(s)[x] else 0
    decreases |s|
  {
    if |s| > 0 {
      assert s == s[..|s| - 1] + [s[|s| - 1]];
      OnlyCounts(p, s[..|s| - 1], x);
    }
  }

  lemma {:induction false} OnlyTwice<T>(p: T -> bool, q: T -> bool, both: T -> bool, s: seq<T>)
    requires forall x :: both(x) <==> p(x) && q(x)
    ensures Only(p, Only(q, s)) == Only(both, s)
    decreases |s|
  {
    if |s| > 0 {
      var front, last := s[..|s| - 1], s[|s| - 1];
      OnlyTwice(p, q, both, front);
      OnlyNext(p, Only(q, front), last);
      assert Only(q, front) + [] == Only(q, front);
    }
  }

  lemma {:induction false} OnlyAlike<T>(p: T -> bool, q: T -> bool, s: seq<T>)
    requires forall x :: p(x) <==> q(x)
    ensures Only(p, s) == Only(q, s)
    decreases |s|
  {
    if |s| > 0 {
      OnlyAlike(p, q, s[..|s| - 1]);
    }
  }

  lemma {:induction false} OnlyOfCons<T>(p: T -> bool, s: seq<T>)
    requires |s| > 0
    ensures Only(p, s) == (if p(s[0]) then [s[0]] else []) + Only(p, s[1..])
    decreases |s|
  {
    if |s| > 1 {
      OnlyOfCons(p, s[..|s| - 1]);
      assert s[1..][..|s| - 2] == s[..|s| - 1][1..];
    }
  }

  function Mapped<T, U>(f: T -> U, s: seq<T>): seq<U> {
    seq(|s|, i requires 0 <= i < |s| => f(s[i]))
  }

  lemma MappedCons<T, U>(f: T -> U, x: T, s: seq<T>)
    ensures Mapped(f, [x] + s) == [f(x)] + Mapped(f, s)
  {
  }
}
