/**
 * Character classes and string operations of Python's `str` that the
 * normalisation code relies on: whitespace, word characters, case,
 * `strip`, `rstrip(chars)`, `count`, `split`, `join` and `replace`.
 */
module Strings {
  import opened Wrappers

  /** Python's `str.isspace()`; also the set of characters `\s` matches in a str pattern. */
  predicate IsSpace(c: char) {
    c == ' ' || ('\t' <= c <= '\r') || ('\U{1c}' <= c <= '\U{1f}')
    || c == '\U{85}' || c == '\U{a0}' || c == '\U{1680}' || ('\U{2000}' <= c <= '\U{200a}')
    || c == '\U{2028}' || c == '\U{2029}' || c == '\U{202f}' || c == '\U{205f}' || c == '\U{3000}'
  }

  /** `\w` restricted to ASCII: letters, digits and the underscore. */
  predicate IsWordChar(c: char) {
    ('a' <= c <= 'z') || ('A' <= c <= 'Z') || ('0' <= c <= '9') || c == '_'
  }

  /** `str.isupper()` of a single character, restricted to ASCII. */
  predicate IsUpper(c: char) {
    'A' <= c <= 'Z'
  }

  /** Lower-casing of one character, restricted to ASCII. */
  function LowerChar(c: char): (r: char)
    ensures !IsUpper(r)
    ensures IsUpper(c) ==> r as int == c as int + 32
    ensures !IsUpper(c) ==> r == c
  {
    if IsUpper(c) then (c as int + 32) as char else c
  }

  /** `str.lower()`, character by character. */
  function Lower(s: string): (r: string)
    ensures |r| == |s|
    ensures forall i :: 0 <= i < |s| ==> r[i] == LowerChar(s[i])
  {
    if s == [] then [] else [LowerChar(s[0])] + Lower(s[1..])
  }

  /** Number of occurrences of the character `c` in `s` (`s.count(c)`). */
  function Count(s: string, c: char): (n: nat)
    ensures n <= |s|
  {
    if s == [] then 0 else (if s[0] == c then 1 else 0) + Count(s[1..], c)
  }

  /** Number of characters of `s` that satisfy `IsUpper`. */
  function CountUpper(s: string): (n: nat)
    ensures n <= |s|
  {
    if s == [] then 0 else (if IsUpper(s[0]) then 1 else 0) + CountUpper(s[1..])
  }

  /** The non-whitespace characters of `s`, in order. */
  function NonSpace(s: string): (r: string)
    ensures |r| <= |s|
    ensures forall i :: 0 <= i < |r| ==> !IsSpace(r[i])
  {
    if s == [] then [] else (if IsSpace(s[0]) then [] else [s[0]]) + NonSpace(s[1..])
  }

  lemma {:induction false} NonSpaceAppend(a: string, b: string)
    ensures NonSpace(a + b) == NonSpace(a) + NonSpace(b)
  {
    if a == [] {
      assert a + b == b;
    } else {
      assert (a + b)[1..] == a[1..] + b;
      NonSpaceAppend(a[1..], b);
    }
  }

  lemma NonSpaceOfSpaces(s: string)
    requires forall i :: 0 <= i < |s| ==> IsSpace(s[i])
    ensures NonSpace(s) == []
  {
  }

  // ---------------------------------------------------------------- strip

  /** `s.rstrip()`: drop trailing whitespace. */
  function RStrip(s: string): (r: string)
    ensures r <= s
    ensures r == [] || !IsSpace(r[|r| - 1])
    ensures forall i :: |r| <= i < |s| ==> IsSpace(s[i])
  {
    if s != [] && IsSpace(s[|s| - 1]) then RStrip(s[..|s| - 1]) else s
  }

  /** `s.lstrip()`: drop leading whitespace. */
  function LStrip(s: string): (r: string)
    ensures |r| <= |s| && r == s[|s| - |r|..]
    ensures r == [] || !IsSpace(r[0])
    ensures forall i :: 0 <= i < |s| - |r| ==> IsSpace(s[i])
  {
    if s != [] && IsSpace(s[0]) then LStrip(s[1..]) else s
  }

  /** `s.strip()`: drop leading and trailing whitespace. */
  function Strip(s: string): string {
    LStrip(RStrip(s))
  }

  /** `Strip` leaves no whitespace at either end. */
  lemma StripEnds(s: string)
    ensures Strip(s) == [] || (!IsSpace(Strip(s)[0]) && !IsSpace(Strip(s)[|Strip(s)| - 1]))
  {
    var r := RStrip(s);
    var t := LStrip(r);
    if t != [] {
      assert t[|t| - 1] == r[|r| - 1];
    }
  }

  lemma {:induction false} RStripNonSpace(s: string)
    ensures NonSpace(RStrip(s)) == NonSpace(s)
  {
    if s != [] && IsSpace(s[|s| - 1]) {
      var init := s[..|s| - 1];
      RStripNonSpace(init);
      assert s == init + [s[|s| - 1]];
      NonSpaceAppend(init, [s[|s| - 1]]);
    }
  }

  lemma {:induction false} LStripNonSpace(s: string)
    ensures NonSpace(LStrip(s)) == NonSpace(s)
  {
    if s != [] && IsSpace(s[0]) {
      LStripNonSpace(s[1..]);
    }
  }

  /** `Strip` removes only whitespace: the other characters stay, in order. */
  lemma StripNonSpace(s: string)
    ensures NonSpace(Strip(s)) == NonSpace(s)
  {
    RStripNonSpace(s);
    LStripNonSpace(RStrip(s));
  }

  /** `Strip(s)` is a slice of `s`. */
  lemma StripSlice(s: string)
    ensures exists i, j :: 0 <= i <= j <= |s| && Strip(s) == s[i..j]
  {
    var r := RStrip(s);
    var t := LStrip(r);
    var k := |r| - |t|;
    assert r == s[..|r|];
    assert t == r[k..];
    assert s[..|r|][k..] == s[k..|r|];
    assert 0 <= k <= |r| <= |s| && Strip(s) == s[k..|r|];
  }

  /** `Strip` removes only whitespace, keeps the order of everything else and leaves no whitespace at either end. */
  lemma StripProperties(s: string)
    ensures Strip(s) == [] || (!IsSpace(Strip(s)[0]) && !IsSpace(Strip(s)[|Strip(s)| - 1]))
    ensures NonSpace(Strip(s)) == NonSpace(s)
    ensures exists i, j :: 0 <= i <= j <= |s| && Strip(s) == s[i..j]
  {
    StripEnds(s);
    StripNonSpace(s);
    StripSlice(s);
  }

  /** A string without surrounding whitespace is its own `Strip`. */
  lemma StripNoop(s: string)
    requires s == [] || (!IsSpace(s[0]) && !IsSpace(s[|s| - 1]))
    ensures Strip(s) == s
  {
  }

  /** `s.rstrip(chars)`: drop trailing characters that belong to `chars`. */
  function RStripChars(s: string, chars: set<char>): (r: string)
    ensures r <= s
    ensures r == [] || r[|r| - 1] !in chars
    ensures forall i :: |r| <= i < |s| ==> s[i] in chars
  {
    if s != [] && s[|s| - 1] in chars then RStripChars(s[..|s| - 1], chars) else s
  }

  // ------------------------------------------------------- split and join

  /** `p` occurs in `s` starting at index `i`. */
  predicate OccursAt(s: string, p: string, i: nat) {
    i + |p| <= |s| && s[i..i + |p|] == p
  }

  /** `p` is a substring of `s` (Python's `p in s`). */
  predicate Contains(s: string, p: string) {
    exists i :: 0 <= i <= |s| && OccursAt(s, p, i)
  }

  /** The first index at or after `from` where `p` occurs in `s`. */
  function FindFrom(s: string, p: string, from: nat): (r: Option<nat>)
    requires from <= |s|
    decreases |s| - from
    ensures r.Some? ==> from <= r.value && OccursAt(s, p, r.value)
    ensures forall j :: from <= j <= |s| && (r.None? || j < r.value) ==> !OccursAt(s, p, j)
  {
    if OccursAt(s, p, from) then Some(from)
    else if from == |s| then None
    else FindFrom(s, p, from + 1)
  }

  /** `s.find(p)`, with `None` for -1. */
  function Find(s: string, p: string): (r: Option<nat>)
    ensures r.Some? ==> OccursAt(s, p, r.value) && forall j :: 0 <= j < r.value ==> !OccursAt(s, p, j)
    ensures r.None? <==> !Contains(s, p)
  {
    FindFrom(s, p, 0)
  }

  /** `s.split(sep)` for a non-empty separator: cut at each leftmost non-overlapping occurrence. */
  function Split(s: string, sep: string): (parts: seq<string>)
    requires sep != []
    decreases |s|
    ensures |parts| >= 1
  {
    match Find(s, sep)
    case None => [s]
    case Some(i) => [s[..i]] + Split(s[i + |sep|..], sep)
  }

  /** `sep.join(parts)`. */
  function Join(parts: seq<string>, sep: string): string {
    if parts == [] then []
    else if |parts| == 1 then parts[0]
    else parts[0] + sep + Join(parts[1..], sep)
  }

  lemma JoinCons(a: string, parts: seq<string>, sep: string)
    requires parts != []
    ensures Join([a] + parts, sep) == a + sep + Join(parts, sep)
  {
    assert ([a] + parts)[1..] == parts;
  }

  /** The first split of `s` at a found occurrence. */
  lemma SplitAt(s: string, sep: string, i: nat)
    requires sep != [] && Find(s, sep) == Some(i)
    ensures i + |sep| <= |s|
    ensures Split(s, sep) == [s[..i]] + Split(s[i + |sep|..], sep)
    ensures s == s[..i] + sep + s[i + |sep|..]
  {
    assert s[i..i + |sep|] == sep;
    assert s == s[..i] + s[i..i + |sep|] + s[i + |sep|..];
  }

  /** Splitting and joining with the same separator gives back the string. */
  lemma {:induction false} JoinSplit(s: string, sep: string)
    requires sep != []
    ensures Join(Split(s, sep), sep) == s
    decreases |s|
  {
    var f := Find(s, sep);
    if f.Some? {
      var i := f.value;
      var rest := s[i + |sep|..];
      SplitAt(s, sep, i);
      JoinSplit(rest, sep);
      JoinCons(s[..i], Split(rest, sep), sep);
    }
  }

  /** No part of a split contains the separator. */
  lemma {:induction false} SplitPartsClean(s: string, sep: string)
    requires sep != []
    ensures forall k :: 0 <= k < |Split(s, sep)| ==> !Contains(Split(s, sep)[k], sep)
    decreases |s|
  {
    var f := Find(s, sep);
    if f.Some? {
      var i := f.value;
      var rest := s[i + |sep|..];
      var head := s[..i];
      SplitAt(s, sep, i);
      SplitPartsClean(rest, sep);
      HeadBeforeFirst(s, sep, i);
      var parts := Split(rest, sep);
      assert Split(s, sep) == [head] + parts;
      forall k | 0 < k < |parts| + 1
        ensures !Contains(([head] + parts)[k], sep)
      {
        assert ([head] + parts)[k] == parts[k - 1];
      }
    }
  }

  /** The text before the first occurrence of `sep` does not contain `sep`. */
  lemma HeadBeforeFirst(s: string, sep: string, i: nat)
    requires sep != [] && Find(s, sep) == Some(i)
    ensures !Contains(s[..i], sep)
  {
    var head := s[..i];
    forall j | 0 <= j <= |head| && OccursAt(head, sep, j)
      ensures false
    {
      assert s[j..j + |sep|] == head[j..j + |sep|];
      assert j < i && OccursAt(s, sep, j);
    }
  }

  /** A string that does not contain the separator splits into itself. */
  lemma SplitNoOccurrence(s: string, sep: string)
    requires sep != [] && !Contains(s, sep)
    ensures Split(s, sep) == [s]
  {
  }

  /** `s.replace(pat, repl)`: every non-overlapping occurrence of `pat`, left to right, becomes `repl`. */
  function ReplaceAll(s: string, pat: string, repl: string): string {
    if pat == [] then InterleaveEmpty(s, repl) else Join(Split(s, pat), repl)
  }

  /** `s.replace("", repl)`: `repl` in front of every character and at the end. */
  function InterleaveEmpty(s: string, repl: string): string {
    if s == [] then repl else repl + [s[0]] + InterleaveEmpty(s[1..], repl)
  }

  /** Replacing a string that does not occur changes nothing. */
  lemma ReplaceAbsent(s: string, pat: string, repl: string)
    requires pat != [] && !Contains(s, pat)
    ensures ReplaceAll(s, pat, repl) == s
  {
    SplitNoOccurrence(s, pat);
  }

  /** Replacing a string by itself changes nothing. */
  lemma ReplaceSelf(s: string, pat: string)
    requires pat != []
    ensures ReplaceAll(s, pat, pat) == s
  {
    JoinSplit(s, pat);
  }

  lemma {:induction false} NonSpaceJoin(parts: seq<string>, a: string, b: string)
    requires NonSpace(a) == NonSpace(b)
    ensures NonSpace(Join(parts, a)) == NonSpace(Join(parts, b))
  {
    if |parts| > 1 {
      NonSpaceJoin(parts[1..], a, b);
      NonSpaceAppend(parts[0] + a, Join(parts[1..], a));
      NonSpaceAppend(parts[0], a);
      NonSpaceAppend(parts[0] + b, Join(parts[1..], b));
      NonSpaceAppend(parts[0], b);
    }
  }

  lemma {:induction false} NonSpaceInterleave(s: string, repl: string)
    requires NonSpace(repl) == []
    ensures NonSpace(InterleaveEmpty(s, repl)) == NonSpace(s)
  {
    if s != [] {
      NonSpaceInterleave(s[1..], repl);
      NonSpaceAppend(repl + [s[0]], InterleaveEmpty(s[1..], repl));
      NonSpaceAppend(repl, [s[0]]);
      NonSpaceAppend([s[0]], s[1..]);
      assert s == [s[0]] + s[1..];
    }
  }

  /** A replacement text with the same non-whitespace characters as the replaced one keeps the non-whitespace characters of the whole string. */
  lemma ReplaceKeepsNonSpace(s: string, pat: string, repl: string)
    requires NonSpace(pat) == NonSpace(repl)
    ensures NonSpace(ReplaceAll(s, pat, repl)) == NonSpace(s)
  {
    if pat == [] {
      NonSpaceInterleave(s, repl);
    } else {
      NonSpaceJoin(Split(s, pat), repl, pat);
      JoinSplit(s, pat);
    }
  }

  /** Concatenation of a sequence of strings (`''.join(parts)`). */
  function Concat(parts: seq<string>): (r: string)
    ensures |parts| == 0 ==> r == []
  {
    if parts == [] then [] else Concat(parts[..|parts| - 1]) + parts[|parts| - 1]
  }

  // ------------------------------------------------------------ ordering

  /** Python's `a <= b` on strings: lexicographic comparison of code points. */
  predicate LexLe(a: string, b: string) {
    a == [] || (b != [] && (a[0] < b[0] || (a[0] == b[0] && LexLe(a[1..], b[1..]))))
  }

  lemma {:induction false} LexLeTotal(a: string, b: string)
    ensures LexLe(a, b) || LexLe(b, a)
  {
    if a != [] && b != [] && a[0] == b[0] {
      LexLeTotal(a[1..], b[1..]);
    }
  }

  lemma {:induction false} LexLeAntisymmetric(a: string, b: string)
    requires LexLe(a, b) && LexLe(b, a)
    ensures a == b
  {
    if a != [] && b != [] {
      LexLeAntisymmetric(a[1..], b[1..]);
      assert a == [a[0]] + a[1..] && b == [b[0]] + b[1..];
    }
  }

  lemma {:induction false} LexLeTransitive(a: string, b: string, c: string)
    requires LexLe(a, b) && LexLe(b, c)
    ensures LexLe(a, c)
  {
    if a != [] && b != [] && c != [] && a[0] == b[0] && b[0] == c[0] {
      LexLeTransitive(a[1..], b[1..], c[1..]);
    }
  }

  lemma {:induction false} LexLeReflexive(a: string)
    ensures LexLe(a, a)
  {
    if a != [] {
      LexLeReflexive(a[1..]);
    }
  }

  /** Adding `x` to a set with least element `m`: the new least element is the smaller of the two. */
  lemma LeastInsert(s: set<string>, x: string, m: string)
    requires m in s && forall y :: y in s ==> LexLe(m, y)
    ensures LexLe(x, m) ==> forall y :: y in s + {x} ==> LexLe(x, y)
    ensures !LexLe(x, m) ==> forall y :: y in s + {x} ==> LexLe(m, y)
  {
    LexLeReflexive(x);
    LexLeTotal(x, m);
    if LexLe(x, m) {
      forall y | y in s ensures LexLe(x, y) {
        LexLeTransitive(x, m, y);
      }
    }
  }

  /** A least element of a non-empty set of strings, found by removing one element at a time. */
  ghost function LeastOf(s: set<string>): (m: string)
    requires s != {}
    ensures m in s && forall y :: y in s ==> LexLe(m, y)
    decreases |s|
  {
    var x :| x in s;
    if s == {x} then
      LexLeReflexive(x);
      x
    else
      var rest := s - {x};
      var m := LeastOf(rest);
      LeastInsert(rest, x, m);
      assert rest + {x} == s;
      if LexLe(x, m) then x else m
  }

  /** The least element of a non-empty set of strings. */
  function Least(s: set<string>): (m: string)
    requires s != {}
    ensures m in s && forall x :: x in s ==> LexLe(m, x)
  {
    assert LeastOf(s) in s;
    forall a, b | a in s && b in s && LexLe(a, b) && LexLe(b, a) ensures a == b {
      LexLeAntisymmetric(a, b);
    }
    var m :| m in s && forall x :: x in s ==> LexLe(m, x);
    m
  }

  /** Python's `sorted(s)` for a set of strings. */
  function SortedSet(s: set<string>): (r: seq<string>)
    ensures |r| == |s|
    ensures forall x :: x in r <==> x in s
    ensures forall i, j :: 0 <= i < j < |r| ==> LexLe(r[i], r[j]) && r[i] != r[j]
    decreases |s|
  {
    if s == {} then []
    else
      var m := Least(s);
      var rest := SortedSet(s - {m});
      [m] + rest
  }
}
