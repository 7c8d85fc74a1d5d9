/**
 * `src/transformers/column_names_fixer.py`: `fix_feature_names` drops the
 * `step__` prefixes that scikit-learn's column transformers put in front of
 * column names, keeping the last part of `name.split('__')`.
 */
module ColumnNamesFixer {
  import opened Wrappers
  import opened Strings

  const Marker: string := "__"

  /** The last part of a split. */
  function Last(parts: seq<string>): string
    requires parts != []
  {
    parts[|parts| - 1]
  }

  /** `c.split('__')[-1]`. */
  function LastSegment(c: string): string {
    Last(Split(c, Marker))
  }

  /** `s.endswith(l)`. */
  predicate EndsWith(s: string, l: string) {
    |l| <= |s| && s[|s| - |l|..] == l
  }

  lemma EndsWithTrans(s: string, m: string, l: string)
    requires EndsWith(s, m) && EndsWith(m, l)
    ensures EndsWith(s, l)
  {
    assert s[|s| - |l|..] == s[|s| - |m|..][|m| - |l|..];
  }

  lemma EndsWithConcat(a: string, b: string)
    ensures EndsWith(a + b, b)
  {
    assert (a + b)[|a|..] == b;
  }

  lemma EndsWithAfter(s: string, a: string, sep: string, rest: string, x: string)
    requires s == a + sep + rest && EndsWith(rest, x)
    ensures EndsWith(s, x)
  {
    EndsWithConcat(a + sep, rest);
    EndsWithTrans(s, rest, x);
  }

  /** Past the first separator, the last part is the last part of the rest. */
  lemma SplitLastTail(s: string, sep: string, i: nat)
    requires sep != [] && Find(s, sep) == Some(i)
    ensures i + |sep| <= |s|
    ensures Last(Split(s, sep)) == Last(Split(s[i + |sep|..], sep))
    ensures s == s[..i] + sep + s[i + |sep|..]
  {
    SplitAt(s, sep, i);
    LastAppend([s[..i]], Split(s[i + |sep|..], sep));
  }

  /** The last part of a split ends the string. */
  lemma {:induction false} SplitLastEnds(s: string, sep: string)
    requires sep != []
    ensures EndsWith(s, Last(Split(s, sep)))
    decreases |s|
  {
    var f := Find(s, sep);
    if f.Some? {
      var i := f.value;
      SplitLastTail(s, sep, i);
      var rest := s[i + |sep|..];
      SplitLastEnds(rest, sep);
      EndsWithAfter(s, s[..i], sep, rest, Last(Split(rest, sep)));
    } else {
      assert s[|s| - |s|..] == s;
    }
  }

  lemma LastAppend(a: seq<string>, b: seq<string>)
    requires b != []
    ensures Last(a + b) == Last(b)
  {
  }

  /** Unless it is the only part, the last part of a split follows a separator. */
  lemma {:induction false} SplitLastAfterSep(s: string, sep: string)
    requires sep != [] && |Split(s, sep)| > 1
    ensures EndsWith(s, sep + Last(Split(s, sep)))
    decreases |s|
  {
    var i := Find(s, sep).value;
    var rest := s[i + |sep|..];
    SplitAt(s, sep, i);
    var tail := Split(rest, sep);
    var l := Last(tail);
    LastAppend([s[..i]], tail);
    if |tail| == 1 {
      assert l == rest;
      assert s == s[..i] + (sep + rest);
      EndsWithConcat(s[..i], sep + rest);
    } else {
      SplitLastAfterSep(rest, sep);
      EndsWithAfter(s, s[..i], sep, rest, sep + l);
    }
  }

  /** A name `fix_feature_names` can produce from `c`: a suffix of it without `__`. */
  predicate CleanSuffix(c: string, l: string) {
    EndsWith(c, l) && !Contains(l, Marker)
  }

  /**
   * The new name is a suffix of the old one without `__`; when the old name
   * has a `__` the new one follows one, and otherwise the name is unchanged.
   */
  lemma LastSegmentSpec(c: string)
    ensures CleanSuffix(c, LastSegment(c))
    ensures Contains(c, Marker) ==> EndsWith(c, Marker + LastSegment(c))
    ensures !Contains(c, Marker) ==> LastSegment(c) == c
  {
    SplitLastEnds(c, Marker);
    SplitPartsClean(c, Marker);
    if Contains(c, Marker) {
      var i := Find(c, Marker).value;
      SplitAt(c, Marker, i);
      SplitLastAfterSep(c, Marker);
    }
  }

  /** Fixing a fixed name changes nothing. */
  lemma LastSegmentIdempotent(c: string)
    ensures LastSegment(LastSegment(c)) == LastSegment(c)
  {
    LastSegmentSpec(c);
    LastSegmentSpec(LastSegment(c));
  }

  /** `[c.split('__')[-1] for c in X.columns]`. */
  function FixColumns(columns: seq<string>): (r: seq<string>)
    ensures |r| == |columns|
  {
    seq(|columns|, i requires 0 <= i < |columns| => LastSegment(columns[i]))
  }

  /** One name per column, in the same order, each the segment after the last `__`; applying the fix twice is applying it once. */
  lemma FixColumnsSpec(columns: seq<string>)
    ensures |FixColumns(columns)| == |columns|
    ensures forall i :: 0 <= i < |columns| ==> CleanSuffix(columns[i], FixColumns(columns)[i])
    ensures FixColumns(FixColumns(columns)) == FixColumns(columns)
  {
    forall i | 0 <= i < |columns|
      ensures CleanSuffix(columns[i], FixColumns(columns)[i])
      ensures FixColumns(FixColumns(columns))[i] == FixColumns(columns)[i]
    {
      LastSegmentSpec(columns[i]);
      LastSegmentIdempotent(columns[i]);
    }
  }

  /** An object that `fix_feature_names` receives; `columns` is `None` when it has no such attribute. */
  class Table {
    var columns: Option<seq<string>>

    constructor(columns: Option<seq<string>>)
      ensures this.columns == columns
    {
      this.columns := columns;
    }
  }

  /** `fix_feature_names(X)`: renames the columns in place, when there are any, and returns the same object. */
  method FixFeatureNames(x: Table) returns (r: Table)
    modifies x
    ensures r == x
    ensures old(x.columns).None? ==> x.columns == None
    ensures old(x.columns).Some? ==> x.columns == Some(FixColumns(old(x.columns).value))
  {
    if x.columns.Some? {
      x.columns := Some(FixColumns(x.columns.value));
    }
    r := x;
  }
}
