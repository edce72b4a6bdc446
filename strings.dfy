/**
 * The Python string operations the services rely on, restricted to ASCII:
 * `str.lower`, `in` (substring), `str.find`-style search, `str.split(sep)`,
 * `sep.join(parts)`, `str.replace`, `str.strip` and slicing `s[:n]`.
 */
module Strings {
  import opened Wrappers

  /** Python's `str.isspace` on ASCII: space, \t, \n, \v, \f, \r and the separators \x1c-\x1f. */
  predicate IsSpace(c: char) {
    c == ' ' || ('\t' <= c <= '\r') || ('\U{001C}' <= c <= '\U{001F}')
  }

  /** `str.lower` on one character: only A-Z change. */
  function LowerChar(c: char): (r: char)
    ensures !('A' <= r <= 'Z')
    ensures ('a' <= c <= 'z') ==> r == c
  {
    if 'A' <= c <= 'Z' then (c as int + 32) as char else c
  }

  function Lower(s: string): (r: string)
    ensures |r| == |s|
    ensures forall i :: 0 <= i < |s| ==> r[i] == LowerChar(s[i])
  {
    seq(|s|, i requires 0 <= i < |s| => LowerChar(s[i]))
  }

  lemma LowerIdempotent(s: string)
    ensures Lower(Lower(s)) == Lower(s)
  {
    assert forall i :: 0 <= i < |s| ==> LowerChar(LowerChar(s[i])) == LowerChar(s[i]);
  }

  /** `p` occurs in `s` starting at index `i`. */
  predicate OccursAt(s: string, p: string, i: nat) {
    i + |p| <= |s| && s[i..i + |p|] == p
  }

  /** Python's `s.startswith(prefix)`. */
  predicate StartsWith(s: string, prefix: string) {
    |prefix| <= |s| && s[..|prefix|] == prefix
  }

  /** A string lacking some character of `p` cannot contain `p`. */
  lemma MissingCharacter(s: string, p: string, c: char)
    requires c in p && c !in s
    ensures !Contains(s, p)
  {
  }

  /** Python's `p in s`. */
  predicate Contains(s: string, p: string) {
    exists i: nat | i <= |s| :: OccursAt(s, p, i)
  }

  /** `s[:n]`: the first `n` characters, or all of them when `s` is shorter. */
  function Take<T>(s: seq<T>, n: nat): (r: seq<T>)
    ensures |r| <= n && |r| <= |s|
    ensures |r| == n || r == s
    ensures r == s[..|r|]
  {
    if |s| <= n then s else s[..n]
  }

  /** The first occurrence of `p` in `s` at or after index `from`. */
  function FindFrom(s: string, p: string, from: nat): (r: Option<nat>)
    requires from <= |s|
    ensures r.Some? ==> from <= r.value && OccursAt(s, p, r.value)
    ensures r.Some? ==> forall j: nat :: from <= j < r.value ==> !OccursAt(s, p, j)
    ensures r.None? ==> forall j: nat :: from <= j ==> !OccursAt(s, p, j)
    decreases |s| - from
  {
    if OccursAt(s, p, from) then Some(from)
    else if from + |p| >= |s| then None
    else FindFrom(s, p, from + 1)
  }

  /** The first occurrence of `p` in `s`, `None` exactly when `s` does not contain `p`. */
  function FindFirst(s: string, p: string): (r: Option<nat>)
    ensures r.Some? ==> OccursAt(s, p, r.value)
    ensures r.Some? ==> forall j: nat :: j < r.value ==> !OccursAt(s, p, j)
    ensures r.None? <==> !Contains(s, p)
  {
    FindFrom(s, p, 0)
  }

  /**
   * Python's `s.split(sep)` for a non-empty separator: the pieces between the
   * non-overlapping occurrences of `sep`, found from the left.
   */
  function Split(s: string, sep: string): (parts: seq<string>)
    requires sep != []
    ensures |parts| >= 1
    decreases |s|
  {
    match FindFirst(s, sep)
    case None => [s]
    case Some(i) => [s[..i]] + Split(s[i + |sep|..], sep)
  }

  /** Python's `sep.join(parts)`. */
  function Join(parts: seq<string>, sep: string): (r: string)
    ensures parts == [] ==> r == []
    ensures |parts| == 1 ==> r == parts[0]
  {
    if parts == [] then []
    else if |parts| == 1 then parts[0]
    else parts[0] + sep + Join(parts[1..], sep)
  }

  /** Python's `s.replace(target, replacement)` for a non-empty `target`, which equals `replacement.join(s.split(target))`. */
  function Replace(s: string, target: string, replacement: string): string
    requires target != []
  {
    Join(Split(s, target), replacement)
  }

  /** Joining the pieces of a split with the same separator gives the string back. */
  lemma {:induction false} JoinSplit(s: string, sep: string)
    requires sep != []
    ensures Join(Split(s, sep), sep) == s
    decreases |s|
  {
    match FindFirst(s, sep)
    case None =>
    case Some(i) =>
      var rest := s[i + |sep|..];
      JoinSplit(rest, sep);
      SplitAtFirst(s, sep, i);
      SeparatorThenRest(s, sep, i);
      assert s == s[..i] + sep + rest;
  }

  /** No piece of a split contains the separator. */
  lemma {:induction false} SplitPiecesLackSeparator(s: string, sep: string)
    requires sep != []
    ensures forall k :: 0 <= k < |Split(s, sep)| ==> !Contains(Split(s, sep)[k], sep)
    decreases |s|
  {
    match FindFirst(s, sep)
    case None =>
    case Some(i) =>
      var rest := s[i + |sep|..];
      SplitPiecesLackSeparator(rest, sep);
      var head := s[..i];
      if Contains(head, sep) {
        var j: nat :| j <= |head| && OccursAt(head, sep, j);
        assert s[j..j + |sep|] == head[j..j + |sep|];
        assert OccursAt(s, sep, j);
      }
  }

  /** The last piece of `s.split(sep)`, Python's `s.split(sep)[-1]`. */
  function LastPiece(s: string, sep: string): string
    requires sep != []
  {
    var parts := Split(s, sep);
    parts[|parts| - 1]
  }

  /**
   * When `s` contains `sep`, the last piece of the split is exactly what
   * follows the last occurrence: `s` ends with `sep` followed by that piece,
   * and the piece itself holds no `sep`.
   */
  lemma {:induction false} SplitLastPiece(s: string, sep: string)
    requires sep != [] && Contains(s, sep)
    ensures |sep| + |LastPiece(s, sep)| <= |s|
    ensures s[|s| - |LastPiece(s, sep)| - |sep|..] == sep + LastPiece(s, sep)
    ensures !Contains(LastPiece(s, sep), sep)
  {
    LastPieceFollowsSeparator(s, sep, FindFirst(s, sep).value);
    SplitPiecesLackSeparator(s, sep);
  }

  lemma {:induction false} LastPieceFollowsSeparator(s: string, sep: string, i: nat)
    requires sep != [] && FindFirst(s, sep) == Some(i)
    ensures |sep| + |LastPiece(s, sep)| <= |s|
    ensures s[|s| - |LastPiece(s, sep)| - |sep|..] == sep + LastPiece(s, sep)
    decreases |s|
  {
    var rest := s[i + |sep|..];
    SplitFirstPiece(s, sep, i);
    assert i + |sep| <= |s| && |s| - |rest| == i + |sep|;
    match FindFirst(rest, sep)
    case Some(k) =>
      LastPieceFollowsSeparator(rest, sep, k);
      var n := |LastPiece(rest, sep)| + |sep|;
      SuffixOfSuffix(s, rest, n);
    case None =>
      SeparatorThenRest(s, sep, i);
  }

  lemma SeparatorThenRest(s: string, sep: string, i: nat)
    requires OccursAt(s, sep, i)
    ensures s[i..] == sep + s[i + |sep|..]
  {
  }

  /** Splitting cuts at the first occurrence and goes on with the remainder. */
  lemma SplitAtFirst(s: string, sep: string, i: nat)
    requires sep != [] && FindFirst(s, sep) == Some(i)
    ensures Split(s, sep) == [s[..i]] + Split(s[i + |sep|..], sep)
  {
  }

  /** The last piece of a split is that of the remainder after the first occurrence. */
  lemma SplitFirstPiece(s: string, sep: string, i: nat)
    requires sep != [] && FindFirst(s, sep) == Some(i)
    ensures LastPiece(s, sep) == LastPiece(s[i + |sep|..], sep)
    ensures FindFirst(s[i + |sep|..], sep).None? ==> LastPiece(s, sep) == s[i + |sep|..]
  {
    var rest := s[i + |sep|..];
    var tail := Split(rest, sep);
    SplitAtFirst(s, sep, i);
    LastOfAppend([s[..i]], tail);
  }

  lemma LastOfAppend<T>(a: seq<T>, b: seq<T>)
    requires b != []
    ensures (a + b)[|a + b| - 1] == b[|b| - 1]
  {
  }

  lemma SuffixOfSuffix(s: string, rest: string, n: nat)
    requires |rest| <= |s| && rest == s[|s| - |rest|..] && n <= |rest|
    ensures s[|s| - n..] == rest[|rest| - n..]
  {
  }

  /** With two or more pieces, a longer separator gives a longer join. */
  lemma {:induction false} JoinLonger(parts: seq<string>, long: string, short: string)
    requires |parts| >= 2 && |short| < |long|
    ensures |Join(parts, short)| < |Join(parts, long)|
    decreases |parts|
  {
    if |parts| > 2 {
      JoinLonger(parts[1..], long, short);
    }
  }

  /** Replacing a present substring by a strictly shorter one makes the string strictly shorter. */
  lemma ReplaceShortens(s: string, target: string, replacement: string)
    requires target != [] && |replacement| < |target| && Contains(s, target)
    ensures |Replace(s, target, replacement)| < |s|
  {
    JoinLonger(Split(s, target), target, replacement);
    JoinSplit(s, target);
  }

  /** `s` has no leading and no trailing whitespace. */
  predicate IsStripped(s: string) {
    s == [] || (!IsSpace(s[0]) && !IsSpace(s[|s| - 1]))
  }

  function StripStart(s: string): (r: string)
    ensures |r| <= |s| && r == s[|s| - |r|..]
    ensures r == [] || !IsSpace(r[0])
    ensures forall k :: 0 <= k < |s| - |r| ==> IsSpace(s[k])
  {
    if s != [] && IsSpace(s[0]) then StripStart(s[1..]) else s
  }

  function StripEnd(s: string): (r: string)
    ensures |r| <= |s| && r == s[..|r|]
    ensures r == [] || !IsSpace(r[|r| - 1])
    ensures forall k :: |r| <= k < |s| ==> IsSpace(s[k])
  {
    if s != [] && IsSpace(s[|s| - 1]) then StripEnd(s[..|s| - 1]) else s
  }

  /** Python's `s.strip()`: drop leading and trailing whitespace. */
  function Strip(s: string): (r: string)
    ensures IsStripped(r)
    ensures exists lo, hi :: 0 <= lo <= hi <= |s| && r == s[lo..hi]
    ensures r == [] ==> forall k :: 0 <= k < |s| ==> IsSpace(s[k])
  {
    var t := StripStart(s);
    var r := StripEnd(t);
    assert r == s[|s| - |t|..|s| - |t| + |r|];
    r
  }

  function DigitChar(d: nat): (c: char)
    requires d < 10
    ensures '0' <= c <= '9'
  {
    ['0', '1', '2', '3', '4', '5', '6', '7', '8', '9'][d]
  }

  /** `str(n)` for a natural number. */
  function DecimalString(n: nat): (r: string)
    ensures r != []
    ensures forall k :: 0 <= k < |r| ==> '0' <= r[k] <= '9'
    ensures n < 10 ==> r == [DigitChar(n)]
  {
    if n < 10 then [DigitChar(n)] else DecimalString(n / 10) + [DigitChar(n % 10)]
  }

  /** `xs` is a subsequence of `ys`: the same elements, in the same order, possibly with gaps. */
  predicate IsSubsequence<T(==)>(xs: seq<T>, ys: seq<T>)
    decreases |ys|
  {
    if xs == [] then true
    else if ys == [] then false
    else if xs[|xs| - 1] == ys[|ys| - 1] then IsSubsequence(xs[..|xs| - 1], ys[..|ys| - 1])
    else IsSubsequence(xs, ys[..|ys| - 1])
  }

  predicate NoDuplicates<T(==)>(xs: seq<T>) {
    forall a, b :: 0 <= a < b < |xs| ==> xs[a] != xs[b]
  }

  /** A non-empty sequence is its front followed by its last element. */
  lemma FrontAndLast<T>(s: seq<T>)
    requires s != []
    ensures s[..|s| - 1] + [s[|s| - 1]] == s
  {
  }

  /** A subsequence of a list stays one when the list grows at the end. */
  lemma {:induction false} SubsequenceOfPrefix<T>(xs: seq<T>, ys: seq<T>, y: T)
    requires IsSubsequence(xs, ys)
    ensures IsSubsequence(xs, ys + [y])
    decreases |ys|, 1
  {
    var zs := ys + [y];
    assert zs[..|zs| - 1] == ys;
    if xs != [] && xs[|xs| - 1] == y {
      SubsequenceDropLast(xs, ys);
    }
  }

  /** A prefix is a subsequence. */
  lemma {:induction false} PrefixIsSubsequence<T>(xs: seq<T>, n: nat)
    requires n <= |xs|
    ensures IsSubsequence(xs[..n], xs)
    decreases |xs|
  {
    if n < |xs| {
      var init := xs[..|xs| - 1];
      PrefixIsSubsequence(init, n);
      assert init[..n] == xs[..n];
      SubsequenceOfPrefix(xs[..n], init, xs[|xs| - 1]);
      assert init + [xs[|xs| - 1]] == xs;
    } else {
      SubsequenceOfSelf(xs);
      assert xs[..n] == xs;
    }
  }

  /** Every sequence is a subsequence of itself. */
  lemma {:induction false} SubsequenceOfSelf<T>(xs: seq<T>)
    ensures IsSubsequence(xs, xs)
    decreases |xs|
  {
    if xs != [] {
      SubsequenceOfSelf(xs[..|xs| - 1]);
    }
  }

  /** A subsequence of a subsequence is a subsequence. */
  lemma {:induction false} SubsequenceTransitive<T>(xs: seq<T>, ys: seq<T>, zs: seq<T>)
    requires IsSubsequence(xs, ys) && IsSubsequence(ys, zs)
    ensures IsSubsequence(xs, zs)
    decreases |zs|
  {
    if xs != [] {
      var zinit := zs[..|zs| - 1];
      var z := zs[|zs| - 1];
      assert zinit + [z] == zs;
      if ys[|ys| - 1] == z {
        if xs[|xs| - 1] == ys[|ys| - 1] {
          SubsequenceTransitive(xs[..|xs| - 1], ys[..|ys| - 1], zinit);
        } else {
          SubsequenceTransitive(xs, ys[..|ys| - 1], zinit);
          SubsequenceOfPrefix(xs, zinit, z);
        }
      } else {
        SubsequenceTransitive(xs, ys, zinit);
        SubsequenceOfPrefix(xs, zinit, z);
      }
    }
  }

  /** Appending the same element to both keeps a subsequence. */
  lemma SubsequenceExtend<T>(xs: seq<T>, ys: seq<T>, y: T)
    requires IsSubsequence(xs, ys)
    ensures IsSubsequence(xs + [y], ys + [y])
  {
    assert (xs + [y])[..|xs|] == xs;
    assert (ys + [y])[..|ys|] == ys;
  }

  /** Dropping the last element of a subsequence leaves a subsequence. */
  lemma {:induction false} SubsequenceDropLast<T>(xs: seq<T>, ys: seq<T>)
    requires xs != [] && IsSubsequence(xs, ys)
    ensures IsSubsequence(xs[..|xs| - 1], ys)
    decreases |ys|, 0
  {
    var init := ys[..|ys| - 1];
    if xs[|xs| - 1] == ys[|ys| - 1] {
      SubsequenceOfPrefix(xs[..|xs| - 1], init, ys[|ys| - 1]);
    } else {
      SubsequenceDropLast(xs, init);
      SubsequenceOfPrefix(xs[..|xs| - 1], init, ys[|ys| - 1]);
    }
    assert init + [ys[|ys| - 1]] == ys;
  }

  /** A slice of a string that lacks `p` lacks `p` too. */
  lemma SliceLacks(s: string, p: string, lo: nat, hi: nat)
    requires lo <= hi <= |s| && !Contains(s, p)
    ensures !Contains(s[lo..hi], p)
  {
    if Contains(s[lo..hi], p) {
      var j: nat :| j <= hi - lo && OccursAt(s[lo..hi], p, j);
      forall k | 0 <= k < |p| ensures s[lo + j + k] == p[k] {
        assert s[lo..hi][j..j + |p|][k] == p[k];
      }
      assert s[lo + j..lo + j + |p|] == p;
      assert OccursAt(s, p, lo + j);
    }
  }

  /** Stripping a string that has no surrounding whitespace leaves it as it is. */
  lemma StripStripped(s: string)
    requires IsStripped(s)
    ensures Strip(s) == s
  {
    if s != [] {
      assert StripStart(s) == s;
      assert StripEnd(s) == s;
    }
  }

  /** Replacing an absent substring changes nothing. */
  lemma ReplaceAbsent(s: string, target: string, replacement: string)
    requires target != [] && !Contains(s, target)
    ensures Replace(s, target, replacement) == s
  {
  }

  /** When `s` lacks `p`, so does every piece of a split of `s`. */
  lemma {:induction false} SplitPiecesLack(s: string, sep: string, p: string)
    requires sep != [] && !Contains(s, p)
    ensures forall k :: 0 <= k < |Split(s, sep)| ==> !Contains(Split(s, sep)[k], p)
    decreases |s|
  {
    match FindFirst(s, sep)
    case None =>
    case Some(i) =>
      SliceLacks(s, p, 0, i);
      SliceLacks(s, p, i + |sep|, |s|);
      assert s[..i] == s[0..i];
      assert s[i + |sep|..] == s[i + |sep|..|s|];
      SplitPiecesLack(s[i + |sep|..], sep, p);
  }

  /**
   * When the first character of `s` does not occur in `sep`, the first piece
   * of the split is non-empty and starts with that character.
   */
  lemma SplitFirstCharacter(s: string, sep: string)
    requires sep != [] && s != [] && s[0] !in sep
    ensures Split(s, sep)[0] != [] && Split(s, sep)[0][0] == s[0]
  {
    match FindFirst(s, sep)
    case None =>
    case Some(i) =>
  }

  /**
   * When the last character of `s` does not occur in `sep`, the last piece
   * of the split is non-empty and ends with that character.
   */
  lemma SplitLastCharacter(s: string, sep: string)
    requires sep != [] && s != [] && s[|s| - 1] !in sep
    ensures LastPiece(s, sep) != [] && LastPiece(s, sep)[|LastPiece(s, sep)| - 1] == s[|s| - 1]
  {
    if Contains(s, sep) {
      SplitLastPiece(s, sep);
      var last := LastPiece(s, sep);
      var tail := s[|s| - |last| - |sep|..];
      assert tail == sep + last;
      assert tail[|tail| - 1] == s[|s| - 1];
    } else {
      assert FindFirst(s, sep).None?;
    }
  }

  /** A join whose last piece is non-empty ends with the last character of that piece. */
  lemma {:induction false} JoinLastCharacter(parts: seq<string>, sep: string)
    requires |parts| >= 1 && parts[|parts| - 1] != []
    ensures var r := Join(parts, sep); r != [] && r[|r| - 1] == parts[|parts| - 1][|parts[|parts| - 1]| - 1]
    decreases |parts|
  {
    if |parts| > 1 {
      JoinLastCharacter(parts[1..], sep);
    }
  }

  /**
   * Replacing a substring whose characters differ from the first and the last
   * character of `s` keeps those two characters in place.
   */
  lemma ReplaceKeepsEnds(s: string, target: string, replacement: string)
    requires target != [] && s != [] && s[0] !in target && s[|s| - 1] !in target
    ensures var r := Replace(s, target, replacement); r != [] && r[0] == s[0] && r[|r| - 1] == s[|s| - 1]
  {
    SplitFirstCharacter(s, target);
    SplitLastCharacter(s, target);
    JoinLastCharacter(Split(s, target), replacement);
  }

  /** A string containing the separator splits into at least two pieces. */
  lemma SplitAroundPresent(s: string, sep: string)
    requires sep != [] && Contains(s, sep)
    ensures |Split(s, sep)| >= 2
  {
    SplitAtFirst(s, sep, FindFirst(s, sep).value);
  }

  /** A join whose first piece is non-empty starts with the first character of that piece. */
  lemma JoinFirstCharacter(parts: seq<string>, sep: string)
    requires |parts| >= 1 && parts[0] != []
    ensures Join(parts, sep) != [] && Join(parts, sep)[0] == parts[0][0]
  {
  }

  /**
   * Splitting a join on a one-character separator that occurs in none of the
   * pieces gives the pieces back.
   */
  lemma {:induction false} SplitJoin(parts: seq<string>, c: char)
    requires |parts| >= 1
    requires forall k :: 0 <= k < |parts| ==> c !in parts[k]
    ensures Split(Join(parts, [c]), [c]) == parts
    decreases |parts|
  {
    var head := parts[0];
    if |parts| == 1 {
      MissingCharacter(head, [c], c);
    } else {
      var rest := Join(parts[1..], [c]);
      var s := head + [c] + rest;
      assert OccursAt(s, [c], |head|);
      forall j: nat | j < |head| ensures !OccursAt(s, [c], j) {
        assert s[j] == head[j];
      }
      var i := FindFirst(s, [c]).value;
      assert s[..i] == head;
      assert s[i + 1..] == rest;
      SplitJoin(parts[1..], c);
    }
  }
}
