/**
 * The fragment of Python's `re` syntax used by the PII detectors: character
 * classes, `\b`, concatenation, `?`, `+`, and the counted repetitions built
 * from them. A pattern is given a meaning as a relation between a text and
 * the spans it matches; `re.search(p, s)` is truthy exactly when some span
 * of `s` matches `p`, whatever order the backtracking engine tries them in.
 */
module Regex {
  import opened Strings

  /** An inclusive character range `lo-hi` inside `[...]`; a single character is `c-c`. */
  datatype CharRange = CharRange(lo: char, hi: char)

  /** A bracketed class: some ranges, plus `\s` when `space` is set. */
  datatype CharClass = CharClass(ranges: seq<CharRange>, space: bool)

  datatype Regex =
    | Char(cls: CharClass)             // one character of the class
    | WordBoundary                     // \b
    | Cat(first: Regex, second: Regex) // first, then second
    | Optional(body: Regex)            // body?
    | OneOrMore(body: Regex)           // body+

  predicate InClass(c: char, cls: CharClass) {
    (cls.space && IsSpace(c)) || exists r | r in cls.ranges :: r.lo <= c <= r.hi
  }

  /** `\w` on ASCII. */
  predicate IsWordChar(c: char) {
    ('a' <= c <= 'z') || ('A' <= c <= 'Z') || ('0' <= c <= '9') || c == '_'
  }

  /** `\b` holds at position `p`: exactly one of the characters around it is a word character. */
  predicate AtWordBoundary(s: string, p: nat)
    requires p <= |s|
  {
    (0 < p && IsWordChar(s[p - 1])) != (p < |s| && IsWordChar(s[p]))
  }

  /** `s[i..j]` matches `r` (with `\b` judged against the whole of `s`). */
  predicate MatchesAt(r: Regex, s: string, i: nat, j: nat)
    requires i <= j <= |s|
    decreases r, j - i
  {
    match r
    case Char(cls) => j == i + 1 && InClass(s[i], cls)
    case WordBoundary => i == j && AtWordBoundary(s, i)
    case Cat(a, b) => exists k | i <= k <= j :: MatchesAt(a, s, i, k) && MatchesAt(b, s, k, j)
    case Optional(a) => i == j || MatchesAt(a, s, i, j)
    case OneOrMore(a) =>
      MatchesAt(a, s, i, j) || exists k | i < k < j :: MatchesAt(a, s, i, k) && MatchesAt(r, s, k, j)
  }

  /** Truthiness of Python's `re.search(r, s)`. */
  predicate Search(r: Regex, s: string) {
    exists i: nat, j: nat | i <= j <= |s| :: MatchesAt(r, s, i, j)
  }

  /** `r{n}` for n >= 1. */
  function Times(r: Regex, n: nat): Regex
    requires n >= 1
  {
    if n == 1 then r else Cat(r, Times(r, n - 1))
  }

  /** `r{1,n}` for n >= 1. */
  function OneTo(r: Regex, n: nat): Regex
    requires n >= 1
  {
    if n == 1 then r else Cat(r, Optional(OneTo(r, n - 1)))
  }

  /** `r{n,}` for n >= 1. */
  function AtLeast(r: Regex, n: nat): Regex
    requires n >= 1
  {
    if n == 1 then OneOrMore(r) else Cat(r, AtLeast(r, n - 1))
  }

  /** The concatenation of a non-empty list of patterns. */
  function Concat(rs: seq<Regex>): Regex
    requires rs != []
  {
    if |rs| == 1 then rs[0] else Cat(rs[0], Concat(rs[1..]))
  }

  /** The fewest characters any match of `r` spans. */
  function MinLength(r: Regex): nat {
    match r
    case Char(_) => 1
    case WordBoundary => 0
    case Cat(a, b) => MinLength(a) + MinLength(b)
    case Optional(_) => 0
    case OneOrMore(a) => MinLength(a)
  }

  /** Every match spans at least `MinLength(r)` characters. */
  lemma {:induction false} MatchLength(r: Regex, s: string, i: nat, j: nat)
    requires i <= j <= |s| && MatchesAt(r, s, i, j)
    ensures j - i >= MinLength(r)
    decreases r, j - i
  {
    match r
    case Char(_) =>
    case WordBoundary =>
    case Optional(_) =>
    case Cat(a, b) =>
      var k :| i <= k <= j && MatchesAt(a, s, i, k) && MatchesAt(b, s, k, j);
      MatchLength(a, s, i, k);
      MatchLength(b, s, k, j);
    case OneOrMore(a) =>
      if MatchesAt(a, s, i, j) {
        MatchLength(a, s, i, j);
      } else {
        var k :| i < k < j && MatchesAt(a, s, i, k) && MatchesAt(r, s, k, j);
        MatchLength(a, s, i, k);
      }
  }

  /** A text shorter than the shortest match has no match at all. */
  lemma NoSearchInShortText(r: Regex, s: string)
    requires |s| < MinLength(r)
    ensures !Search(r, s)
  {
    if Search(r, s) {
      var i: nat, j: nat :| i <= j <= |s| && MatchesAt(r, s, i, j);
      MatchLength(r, s, i, j);
    }
  }

  /** A run of class characters matches `[class]+`. */
  lemma {:induction false} RunMatchesOneOrMore(cls: CharClass, s: string, i: nat, j: nat)
    requires i < j <= |s|
    requires forall k :: i <= k < j ==> InClass(s[k], cls)
    ensures MatchesAt(OneOrMore(Char(cls)), s, i, j)
    decreases j - i
  {
    if j > i + 1 {
      RunMatchesOneOrMore(cls, s, i + 1, j);
      assert MatchesAt(Char(cls), s, i, i + 1);
    }
  }

  /** Gluing a match of `a` to an adjacent match of `b` gives a match of `Cat(a, b)`. */
  lemma CatMatch(a: Regex, b: Regex, s: string, i: nat, k: nat, j: nat)
    requires i <= k <= j <= |s| && MatchesAt(a, s, i, k) && MatchesAt(b, s, k, j)
    ensures MatchesAt(Cat(a, b), s, i, j)
  {
  }

  /** A match of the whole concatenation spans at least as much as any one part needs. */
  lemma {:induction false} ConcatMinLength(rs: seq<Regex>, k: nat)
    requires k < |rs|
    ensures MinLength(Concat(rs)) >= MinLength(rs[k])
    decreases |rs|
  {
    if |rs| > 1 && k > 0 {
      ConcatMinLength(rs[1..], k - 1);
    }
  }

  lemma {:induction false} TimesMinLength(r: Regex, n: nat)
    requires n >= 1
    ensures MinLength(Times(r, n)) == n * MinLength(r)
    decreases n
  {
    if n > 1 {
      TimesMinLength(r, n - 1);
    }
  }

  /** Part `k` of `rs` matches `s` over the span `pos[k]..pos[k + 1]`. */
  predicate PartMatches(rs: seq<Regex>, s: string, pos: seq<nat>, k: nat)
    requires k < |rs| && |pos| == |rs| + 1
  {
    pos[k] <= pos[k + 1] <= |s| && MatchesAt(rs[k], s, pos[k], pos[k + 1])
  }

  /**
   * Matches of the parts at adjacent spans `pos[k]..pos[k + 1]` make a match
   * of their concatenation over the whole span.
   */
  lemma {:induction false} ConcatMatch(rs: seq<Regex>, s: string, pos: seq<nat>)
    requires rs != [] && |pos| == |rs| + 1
    requires forall k: nat | k < |rs| :: PartMatches(rs, s, pos, k)
    ensures pos[0] <= pos[|rs|] <= |s| && MatchesAt(Concat(rs), s, pos[0], pos[|rs|])
    decreases |rs|
  {
    assert PartMatches(rs, s, pos, 0);
    if |rs| > 1 {
      forall k: nat | k < |rs| - 1
        ensures PartMatches(rs[1..], s, pos[1..], k)
      {
        assert PartMatches(rs, s, pos, k + 1);
      }
      ConcatMatch(rs[1..], s, pos[1..]);
      CatMatch(rs[0], Concat(rs[1..]), s, pos[0], pos[1], pos[|rs|]);
    }
  }
}
