/**
 * The few Python `str` operations the release tooling relies on, over
 * `string` (a sequence of Unicode scalar values):
 * `s.find(sep)`, `s.split(sep)`, `sep.join(parts)`, `s.replace(c, "")` for a
 * one-character `c`, `s.lower()` on ASCII letters, `s.strip()`, `str(n)` for a
 * natural number, and the character classes `\s` and `\w` of Python's `re`.
 */
module Strings {
  import opened Wrappers

  // ---------------------------------------------------------------------------
  // Occurrences, find and split
  // ---------------------------------------------------------------------------

  /** `sep` occurs in `s` starting at index `i`. */
  predicate OccursAt(s: string, sep: string, i: nat) {
    i + |sep| <= |s| && s[i..i + |sep|] == sep
  }

  /** Python's `sep in s`. */
  predicate Contains(s: string, sep: string) {
    exists i: nat :: i <= |s| && OccursAt(s, sep, i)
  }

  /** The leftmost occurrence of `sep` in `s` at or after `from`. */
  function IndexFrom(s: string, sep: string, from: nat): (r: Option<nat>)
    requires sep != []
    decreases |s| - from
    ensures r.Some? ==> from <= r.value && OccursAt(s, sep, r.value)
    ensures r.Some? ==> forall j: nat :: from <= j < r.value ==> !OccursAt(s, sep, j)
    ensures r.None? ==> forall j: nat :: from <= j ==> !OccursAt(s, sep, j)
  {
    if from + |sep| > |s| then None
    else if OccursAt(s, sep, from) then Some(from)
    else IndexFrom(s, sep, from + 1)
  }

  /** Python's `s.find(sep)`, with `None` for -1. */
  function Find(s: string, sep: string): (r: Option<nat>)
    requires sep != []
    ensures r.None? <==> !Contains(s, sep)
    ensures r.Some? ==> OccursAt(s, sep, r.value)
    ensures r.Some? ==> forall j: nat :: j < r.value ==> !OccursAt(s, sep, j)
  {
    IndexFrom(s, sep, 0)
  }

  /**
   * Python's `s.split(sep)` for a non-empty separator (Python raises
   * ValueError on an empty one): the pieces between the non-overlapping
   * occurrences of `sep`, found from left to right.
   */
  function Split(s: string, sep: string): (parts: seq<string>)
    requires sep != []
    ensures |parts| >= 1
    decreases |s|
  {
    match Find(s, sep)
    case None => [s]
    case Some(i) => [s[..i]] + Split(s[i + |sep|..], sep)
  }

  /** Python's `sep.join(parts)`. */
  function Join(parts: seq<string>, sep: string): string
  {
    if parts == [] then []
    else if |parts| == 1 then parts[0]
    else parts[0] + sep + Join(parts[1..], sep)
  }

  /** Joining the pieces of a split with the same separator gives back the text. */
  lemma {:induction false} SplitJoin(s: string, sep: string)
    requires sep != []
    ensures Join(Split(s, sep), sep) == s
    decreases |s|
  {
    match Find(s, sep)
    case None =>
    case Some(i) =>
      var rest := s[i + |sep|..];
      var tail := Split(rest, sep);
      SplitJoin(rest, sep);
      assert Split(s, sep) == [s[..i]] + tail;
      assert ([s[..i]] + tail)[1..] == tail;
      assert Join(Split(s, sep), sep) == s[..i] + sep + rest;
      assert s == s[..i] + s[i..i + |sep|] + rest;
  }

  /** A text in which `sep` does not occur before index `i` has no occurrence inside `s[..i]`. */
  lemma PrefixFree(s: string, sep: string, i: nat)
    requires sep != [] && i <= |s|
    requires forall j: nat :: j < i ==> !OccursAt(s, sep, j)
    ensures !Contains(s[..i], sep)
  {
    forall j: nat | OccursAt(s[..i], sep, j)
      ensures false
    {
      assert s[..i][j..j + |sep|] == s[j..j + |sep|];
      assert OccursAt(s, sep, j);
    }
  }

  /**
   * The first piece of a split is the text before the first occurrence of
   * `sep` (all of `s` when there is none): a prefix of `s` free of `sep`,
   * followed in `s` by `sep` or by the end of `s`, and such that no
   * occurrence of `sep` in `s` starts inside it (which matters for a
   * separator that overlaps itself, such as `" = "`).
   */
  lemma SplitFirst(s: string, sep: string)
    requires sep != []
    ensures var p := Split(s, sep)[0];
      && p <= s && !Contains(p, sep) && (p == s || OccursAt(s, sep, |p|))
      && forall j: nat :: j < |p| ==> !OccursAt(s, sep, j)
  {
    match Find(s, sep)
    case None =>
      assert s[..|s|] == s;
      PrefixFree(s, sep, |s|);
    case Some(i) =>
      PrefixFree(s, sep, i);
  }

  /**
   * A split has a second piece exactly when `sep` occurs; that piece is the
   * text after the first occurrence up to the second one (or to the end),
   * and no occurrence of `sep` after the first one starts inside it.
   */
  lemma SplitSecond(s: string, sep: string)
    requires sep != []
    ensures |Split(s, sep)| >= 2 <==> Contains(s, sep)
    ensures Contains(s, sep) ==>
      var q := Split(s, sep)[1];
      var rest := s[Find(s, sep).value + |sep|..];
      && q <= rest && !Contains(q, sep) && (q == rest || OccursAt(rest, sep, |q|))
      && forall j: nat :: j < |q| ==> !OccursAt(rest, sep, j)
  {
    match Find(s, sep)
    case None =>
    case Some(i) =>
      SplitFirst(s[i + |sep|..], sep);
  }

  /** Every piece of a split is free of the separator. */
  lemma {:induction false} SplitPiecesFree(s: string, sep: string)
    requires sep != []
    ensures forall k :: 0 <= k < |Split(s, sep)| ==> !Contains(Split(s, sep)[k], sep)
    decreases |s|
  {
    SplitFirst(s, sep);
    match Find(s, sep)
    case None =>
    case Some(i) =>
      SplitPiecesFree(s[i + |sep|..], sep);
  }

  /** For a one-character separator, occurring is ordinary membership. */
  lemma ContainsChar(s: string, c: char)
    ensures Contains(s, [c]) <==> c in s
  {
    if c in s {
      var i :| 0 <= i < |s| && s[i] == c;
      assert s[i..i + 1] == [c];
      assert OccursAt(s, [c], i);
    }
    if Contains(s, [c]) {
      var i: nat :| i <= |s| && OccursAt(s, [c], i);
      assert s[i] == s[i..i + 1][0];
    }
  }

  /** A character missing from a text is missing from every slice of it. */
  lemma SliceAbsent(s: string, a: nat, b: nat, c: char)
    requires a <= b <= |s| && c !in s
    ensures c !in s[a..b]
  {
  }

  /**
   * For a one-character separator: the first piece of a split is `s` up to
   * the first `c`, or all of `s`.
   */
  lemma SplitFirstChar(s: string, c: char)
    ensures var p := Split(s, [c])[0];
      p == s[..|p|] && c !in p && (|p| == |s| || s[|p|] == c)
  {
    var p := Split(s, [c])[0];
    SplitFirst(s, [c]);
    ContainsChar(p, c);
    if p != s {
      assert s[|p|..|p| + 1] == [c];
    }
  }

  /**
   * For a one-character separator: a split has a second piece exactly when
   * `c` occurs, and that piece runs from just after the first `c` to the next
   * `c` or to the end.
   */
  lemma SplitSecondChar(s: string, c: char)
    ensures |Split(s, [c])| >= 2 <==> c in s
    ensures c in s ==>
      var i, q := Find(s, [c]).value, Split(s, [c])[1];
      && s[i] == c && c !in s[..i]
      && i + 1 + |q| <= |s| && s[i + 1..i + 1 + |q|] == q
      && c !in q && (i + 1 + |q| == |s| || s[i + 1 + |q|] == c)
  {
    SplitSecond(s, [c]);
    ContainsChar(s, c);
    if c in s {
      var i := Find(s, [c]).value;
      var q := Split(s, [c])[1];
      var rest := s[i + 1..];
      assert s[i..i + 1] == [c];
      PrefixFree(s, [c], i);
      ContainsChar(s[..i], c);
      ContainsChar(q, c);
      assert rest[..|q|] == q;
      assert s[i + 1..i + 1 + |q|] == rest[..|q|];
      if q != rest {
        assert rest[|q|..|q| + 1] == [c];
      }
    }
  }

  /** For a one-character separator occurring first at `i`, the split cuts there. */
  lemma SplitCharAt(s: string, c: char, i: nat)
    requires i < |s| && s[i] == c && c !in s[..i]
    ensures Split(s, [c]) == [s[..i]] + Split(s[i + 1..], [c])
  {
    FindCharAt(s, c, i);
  }

  /** The first occurrence of a one-character separator is where it first appears. */
  lemma FindCharAt(s: string, c: char, i: nat)
    requires i < |s| && s[i] == c && c !in s[..i]
    ensures Find(s, [c]) == Some(i)
  {
    assert OccursAt(s, [c], i) by { assert s[i..i + 1] == [c]; }
  }

  /** For a one-character separator that does not occur, the split is the whole text. */
  lemma SplitCharNone(s: string, c: char)
    requires c !in s
    ensures Split(s, [c]) == [s]
  {
    ContainsChar(s, c);
  }

  // ---------------------------------------------------------------------------
  // replace(c, "") and lower()
  // ---------------------------------------------------------------------------

  /** Python's `s.replace(c, "")` for a one-character `c`: every `c` removed. */
  function RemoveAll(s: string, c: char): (r: string)
    ensures c !in r
    ensures |r| <= |s|
  {
    if s == [] then []
    else (if s[0] == c then [] else [s[0]]) + RemoveAll(s[1..], c)
  }

  /** Removing characters distributes over concatenation. */
  lemma {:induction false} RemoveAllConcat(a: string, b: string, c: char)
    ensures RemoveAll(a + b, c) == RemoveAll(a, c) + RemoveAll(b, c)
  {
    if a == [] {
      assert a + b == b;
    } else {
      assert (a + b)[0] == a[0];
      assert (a + b)[1..] == a[1..] + b;
      RemoveAllConcat(a[1..], b, c);
    }
  }

  /** A text without `c` is left as it is. */
  lemma {:induction false} RemoveAllAbsent(s: string, c: char)
    requires c !in s
    ensures RemoveAll(s, c) == s
  {
    if s != [] {
      RemoveAllAbsent(s[1..], c);
    }
  }

  /** Every character other than `c` keeps its number of occurrences. */
  lemma {:induction false} RemoveAllKeeps(s: string, c: char, d: char)
    requires d != c
    ensures multiset(RemoveAll(s, c))[d] == multiset(s)[d]
  {
    if s != [] {
      RemoveAllKeeps(s[1..], c, d);
      assert s == [s[0]] + s[1..];
    }
  }

  predicate IsAsciiUpper(ch: char) { 'A' <= ch <= 'Z' }

  /** Python's `lower()` on one character, for the ASCII letters. */
  function LowerChar(ch: char): (r: char)
    ensures !IsAsciiUpper(r)
    ensures IsAsciiUpper(ch) ==> r as int == ch as int + 32
    ensures !IsAsciiUpper(ch) ==> r == ch
  {
    if IsAsciiUpper(ch) then (ch as int + 32) as char else ch
  }

  /** Python's `s.lower()`, restricted to ASCII case mapping. */
  function Lower(s: string): (r: string)
    ensures |r| == |s|
    ensures forall i :: 0 <= i < |r| ==> !IsAsciiUpper(r[i])
  {
    seq(|s|, i requires 0 <= i < |s| => LowerChar(s[i]))
  }

  /** Lower-casing turns no character into a space and no space into something else. */
  lemma LowerSpace(s: string)
    ensures ' ' in Lower(s) <==> ' ' in s
  {
    if ' ' in s {
      var i :| 0 <= i < |s| && s[i] == ' ';
      assert Lower(s)[i] == ' ';
    }
  }

  // ---------------------------------------------------------------------------
  // strip() and the character classes of `re`
  // ---------------------------------------------------------------------------

  /**
   * Python's `str.isspace()` on one character, which is also what `\s` and
   * `\S` of a `re` pattern over `str` test: the ASCII controls 9-13 and
   * 28-31, the space, and the Unicode spaces and separators.
   */
  predicate IsSpace(c: char) {
    || '\U{9}' <= c <= '\U{d}'
    || '\U{1c}' <= c <= ' '
    || c == '\U{85}' || c == '\U{a0}' || c == '\U{1680}'
    || '\U{2000}' <= c <= '\U{200a}'
    || c == '\U{2028}' || c == '\U{2029}' || c == '\U{202f}' || c == '\U{205f}'
    || c == '\U{3000}'
  }

  /** `\w` of a `re` pattern, for ASCII text: letters, digits and underscore. */
  predicate IsWordChar(c: char) {
    'a' <= c <= 'z' || 'A' <= c <= 'Z' || '0' <= c <= '9' || c == '_'
  }

  /** Python's `s.lstrip()`: the leading whitespace removed. */
  function StripStart(s: string): (r: string)
    ensures |r| <= |s| && r == s[|s| - |r|..]
    ensures forall i :: 0 <= i < |s| - |r| ==> IsSpace(s[i])
    ensures r != [] ==> !IsSpace(r[0])
  {
    if s != [] && IsSpace(s[0]) then StripStart(s[1..]) else s
  }

  /** Python's `s.rstrip()`: the trailing whitespace removed. */
  function StripEnd(s: string): (r: string)
    ensures r <= s
    ensures forall i :: |r| <= i < |s| ==> IsSpace(s[i])
    ensures r != [] ==> !IsSpace(r[|r| - 1])
  {
    if s != [] && IsSpace(s[|s| - 1]) then StripEnd(s[..|s| - 1]) else s
  }

  /** Python's `s.strip()`: leading and trailing whitespace removed. */
  function Strip(s: string): string
  {
    StripEnd(StripStart(s))
  }

  /**
   * What strip leaves: a slice of `s` with only whitespace cut off on either
   * side.
   */
  lemma StripSlice(s: string)
    ensures var r, a := Strip(s), |s| - |StripStart(s)|;
      a + |r| <= |s| && r == s[a..a + |r|]
      && (forall i :: 0 <= i < a ==> IsSpace(s[i]))
      && (forall i :: a + |r| <= i < |s| ==> IsSpace(s[i]))
  {
    var l := StripStart(s);
    var a := |s| - |l|;
    StripEndSlice(l);
    SliceOfSuffix(s, a, |Strip(s)|);
    forall i | a + |Strip(s)| <= i < |s|
      ensures IsSpace(s[i])
    {
      assert s[i] == l[i - a];
    }
  }

  /** rstrip keeps a prefix and cuts only whitespace. */
  lemma StripEndSlice(s: string)
    ensures var r := StripEnd(s); r == s[..|r|]
  {
  }

  /** A slice of a suffix is a slice of the whole. */
  lemma SliceOfSuffix(s: string, a: nat, n: nat)
    requires a + n <= |s|
    ensures s[a..][..n] == s[a..a + n]
  {
  }

  /** What strip leaves neither starts nor ends with whitespace. */
  lemma StripEdges(s: string)
    ensures Strip(s) != [] ==> !IsSpace(Strip(s)[0]) && !IsSpace(Strip(s)[|Strip(s)| - 1])
  {
    var l := StripStart(s);
    StripEndSlice(l);
    if Strip(s) != [] {
      assert Strip(s)[0] == l[0];
    }
  }

  /** A text made only of whitespace strips to the empty text. */
  lemma StripBlank(s: string)
    requires forall i :: 0 <= i < |s| ==> IsSpace(s[i])
    ensures Strip(s) == []
  {
  }

  // ---------------------------------------------------------------------------
  // str(n) for a natural number
  // ---------------------------------------------------------------------------

  predicate IsDigit(c: char) { '0' <= c <= '9' }

  function DigitChar(d: nat): (c: char)
    requires d < 10
    ensures IsDigit(c) && c as int - '0' as int == d
  {
    ('0' as int + d) as char
  }

  /** Python's `str(n)`: the decimal digits of `n`, without leading zeros. */
  function NatToString(n: nat): (r: string)
    ensures |r| >= 1
    ensures forall i :: 0 <= i < |r| ==> IsDigit(r[i])
    ensures |r| > 1 ==> r[0] != '0'
  {
    if n < 10 then [DigitChar(n)] else NatToString(n / 10) + [DigitChar(n % 10)]
  }

  /** Python's `int(s)` on a text of decimal digits. */
  function DecimalValue(s: string): nat
    requires forall i :: 0 <= i < |s| ==> IsDigit(s[i])
  {
    if s == [] then 0
    else
      var last := s[|s| - 1];
      assert IsDigit(last);
      DecimalValue(s[..|s| - 1]) * 10 + (last as int - '0' as int)
  }

  /** Reading the decimal text back gives the number: `int(str(n)) == n`. */
  lemma {:induction false} NatToStringRoundTrip(n: nat)
    ensures DecimalValue(NatToString(n)) == n
  {
    if n >= 10 {
      NatToStringRoundTrip(n / 10);
      var r := NatToString(n);
      assert r[..|r| - 1] == NatToString(n / 10);
    }
  }
}
