/** Facts about sequences that the loops building output lists share. */
module Sequences {

  /** A loop that appends, one by one, the elements of `expected` keeps `done == expected[..i]`. */
  lemma PrefixSnoc<T>(expected: seq<T>, done: seq<T>, i: nat, x: T)
    requires i < |expected| && done == expected[..i] && x == expected[i]
    ensures done + [x] == expected[..i + 1]
  {
  }

  /** The distinct elements of `words`, each once, in order of first occurrence. */
  function Distinct<T(==,!new)>(words: seq<T>): (r: seq<T>)
    ensures forall w :: w in r <==> w in words
    ensures forall i, j :: 0 <= i < j < |r| ==> r[i] != r[j]
    ensures |r| <= |words|
  {
    if words == [] then []
    else
      var prefix := Distinct(words[..|words| - 1]);
      var last := words[|words| - 1];
      if last in prefix then prefix else prefix + [last]
  }

  /** A duplicate-free sequence has as many elements as its set. */
  lemma {:induction false} DistinctCardinality<T(!new)>(s: seq<T>)
    requires forall i, j :: 0 <= i < j < |s| ==> s[i] != s[j]
    ensures |set w | w in s| == |s|
  {
    if s != [] {
      var init := s[..|s| - 1];
      DistinctCardinality(init);
      assert (set w | w in s) == (set w | w in init) + {s[|s| - 1]};
      assert s[|s| - 1] !in init;
    }
  }
}
