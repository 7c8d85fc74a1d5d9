/**
 * `src/transformers/sentece_splitter.py`: `fix_concatenated_words` puts a
 * space after the punctuation inside words glued together by punctuation
 * (`HELP!HELP!` becomes `HELP! HELP!`). Finding the glued words is
 * regex-engine work and is an input here: the `group(0)` of every match of
 * the concatenation pattern, in text order. What is modelled is the
 * rewrite of each match (its punctuation runs, longest first, each followed
 * by one space), the replacement of the matches from last to first, and
 * the final strip.
 */
module SentenceSplitter {
  import opened Wrappers
  import opened Strings
  import opened Sequences

  /** A character of `[^\w\s]`: neither a word character nor whitespace. */
  predicate IsSep(c: char) {
    !IsWordChar(c) && !IsSpace(c)
  }

  /** Every character of `s` is a separator character. */
  predicate AllSep(s: string) {
    forall k :: 0 <= k < |s| ==> IsSep(s[k])
  }

  /** End of the run of separator characters starting at `i`. */
  function SepRunEnd(s: string, i: nat): (j: nat)
    requires i <= |s|
    ensures i <= j <= |s|
    ensures forall k :: i <= k < j ==> IsSep(s[k])
    ensures j == |s| || !IsSep(s[j])
    decreases |s| - i
  {
    if i == |s| || !IsSep(s[i]) then i else SepRunEnd(s, i + 1)
  }

  /** `separators_pattern.findall(s)`: the maximal runs of separator characters, left to right. */
  function Runs(s: string): (runs: seq<string>)
    ensures forall r :: r in runs ==> r != [] && AllSep(r)
    decreases |s|
  {
    if s == [] then []
    else if !IsSep(s[0]) then Runs(s[1..])
    else
      var j := SepRunEnd(s, 0);
      [s[..j]] + Runs(s[j..])
  }

  /** Non-increasing in length. */
  predicate LongestFirst(seps: seq<string>) {
    forall i, j :: 0 <= i < j < |seps| ==> |seps[i]| >= |seps[j]|
  }

  /** Put `x` before the first element that is not longer than it. */
  function InsertByLength(x: string, s: seq<string>): (r: seq<string>)
    ensures |r| == |s| + 1
    ensures forall y :: y in r <==> y == x || y in s
  {
    if s == [] || |x| >= |s[0]| then [x] + s
    else [s[0]] + InsertByLength(x, s[1..])
  }

  lemma {:induction false} InsertByLengthSorted(x: string, s: seq<string>)
    requires LongestFirst(s)
    ensures LongestFirst(InsertByLength(x, s))
  {
    if s != [] && |x| < |s[0]| {
      InsertByLengthSorted(x, s[1..]);
      var r := InsertByLength(x, s[1..]);
      forall k | 0 <= k < |r| ensures |s[0]| >= |r[k]| {
        assert r[k] in r;
        if r[k] != x {
          var m :| 0 <= m < |s[1..]| && s[1..][m] == r[k];
          assert s[1 + m] == r[k];
        }
      }
    }
  }

  /** `separators.sort(reverse=True, key=len)`. */
  function ByLength(s: seq<string>): (r: seq<string>)
    ensures |r| == |s|
    ensures forall y :: y in r <==> y in s
  {
    if s == [] then [] else InsertByLength(s[0], ByLength(s[1..]))
  }

  lemma {:induction false} ByLengthSorted(s: seq<string>)
    ensures LongestFirst(ByLength(s))
  {
    if s != [] {
      ByLengthSorted(s[1..]);
      InsertByLengthSorted(s[0], ByLength(s[1..]));
    }
  }

  /**
   * The alternatives of the substitution pattern: the distinct runs of the
   * match, longest first. The set's iteration order is taken to be first
   * occurrence; the rewrite below does not depend on it.
   */
  function Separators(sub: string): (seps: seq<string>)
    ensures forall y :: y in seps <==> y in Runs(sub)
  {
    ByLength(Distinct(Runs(sub)))
  }

  /** The first alternative, in pattern order, that matches at the start of `s`. */
  function FirstPrefix(s: string, seps: seq<string>): (r: Option<string>)
    ensures r.Some? ==> r.value in seps && r.value <= s
    ensures r.None? <==> forall p :: p in seps ==> !(p <= s)
  {
    if seps == [] then None
    else if seps[0] <= s then Some(seps[0])
    else
      assert seps == [seps[0]] + seps[1..];
      FirstPrefix(s, seps[1..])
  }

  /** With the alternatives longest first, the one that wins is a longest one that matches. */
  lemma {:induction false} FirstPrefixLongest(s: string, seps: seq<string>, q: string)
    requires LongestFirst(seps) && q in seps && q <= s
    ensures FirstPrefix(s, seps).Some? && |FirstPrefix(s, seps).value| >= |q|
  {
    if !(seps[0] <= s) {
      assert q != seps[0];
      var i :| 0 <= i < |seps| && seps[i] == q;
      assert seps[1..][i - 1] == q;
      FirstPrefixLongest(s, seps[1..], q);
    }
  }

  /** `re.sub('(s1|s2|…)', r'\1 ', s)` for non-empty alternatives: scan, and follow each match by a space. */
  function SubAlternatives(s: string, seps: seq<string>): string
    requires forall p :: p in seps ==> p != []
    decreases |s|
  {
    if s == [] then []
    else
      match FirstPrefix(s, seps)
      case Some(p) => p + " " + SubAlternatives(s[|p|..], seps)
      case None => [s[0]] + SubAlternatives(s[1..], seps)
  }

  /**
   * `re.sub(f'({escaped_seps})', r'\1 ', sub)`. With no separators the
   * pattern is `()`, which matches the empty string everywhere.
   */
  function ReSub(s: string, seps: seq<string>): string
    requires forall p :: p in seps ==> p != []
  {
    if seps == [] then InterleaveEmpty(s, " ") else SubAlternatives(s, seps)
  }

  /** `fixed_sub` for one match. */
  function FixSub(sub: string): string {
    ReSub(sub, Separators(sub))
  }

  /** The intended rewrite: one space after every maximal run of separator characters. */
  function InsertSpaces(s: string): string
    decreases |s|
  {
    if s == [] then []
    else if !IsSep(s[0]) then [s[0]] + InsertSpaces(s[1..])
    else
      var j := SepRunEnd(s, 0);
      s[..j] + " " + InsertSpaces(s[j..])
  }

  /** The first alternative that matches at a run is the whole run. */
  lemma FirstPrefixIsRun(s: string, seps: seq<string>)
    requires s != [] && IsSep(s[0]) && LongestFirst(seps)
    requires forall p :: p in seps ==> p != [] && AllSep(p)
    requires s[..SepRunEnd(s, 0)] in seps
    ensures FirstPrefix(s, seps) == Some(s[..SepRunEnd(s, 0)])
  {
    var j := SepRunEnd(s, 0);
    var run := s[..j];
    assert run <= s;
    FirstPrefixLongest(s, seps, run);
    var p := FirstPrefix(s, seps).value;
    assert |p| <= j;
    assert p == s[..|p|];
  }

  /**
   * Because the alternatives are tried longest first, the substitution
   * never splits a run: given every run of `s` among the alternatives, it
   * puts exactly one space after each maximal run.
   */
  lemma {:induction false} SubAlternativesInsertsSpaces(s: string, seps: seq<string>)
    requires forall p :: p in seps ==> p != [] && AllSep(p)
    requires forall r :: r in Runs(s) ==> r in seps
    requires LongestFirst(seps)
    ensures SubAlternatives(s, seps) == InsertSpaces(s)
    decreases |s|
  {
    if s != [] {
      if !IsSep(s[0]) {
        assert FirstPrefix(s, seps).None? by {
          forall p | p in seps ensures !(p <= s) {
          }
        }
        SubAlternativesInsertsSpaces(s[1..], seps);
      } else {
        var j := SepRunEnd(s, 0);
        assert Runs(s) == [s[..j]] + Runs(s[j..]);
        FirstPrefixIsRun(s, seps);
        assert |s[..j]| == j;
        SubAlternativesInsertsSpaces(s[j..], seps);
      }
    }
  }

  /** Every match of the concatenation pattern has a separator, so its rewrite is `InsertSpaces`. */
  lemma FixSubSpec(sub: string)
    requires Runs(sub) != []
    ensures FixSub(sub) == InsertSpaces(sub)
  {
    var seps := Separators(sub);
    ByLengthSorted(Distinct(Runs(sub)));
    assert Runs(sub)[0] in seps;
    SubAlternativesInsertsSpaces(sub, seps);
  }

  /** Inserting spaces keeps the non-whitespace characters. */
  lemma {:induction false} InsertSpacesNonSpace(s: string)
    ensures NonSpace(InsertSpaces(s)) == NonSpace(s)
    decreases |s|
  {
    if s != [] {
      if !IsSep(s[0]) {
        InsertSpacesNonSpace(s[1..]);
        NonSpaceAppend([s[0]], InsertSpaces(s[1..]));
        NonSpaceAppend([s[0]], s[1..]);
        assert s == [s[0]] + s[1..];
      } else {
        var j := SepRunEnd(s, 0);
        InsertSpacesNonSpace(s[j..]);
        NonSpaceAppend(s[..j] + " ", InsertSpaces(s[j..]));
        NonSpaceAppend(s[..j], " ");
        NonSpaceAppend(s[..j], s[j..]);
        assert s == s[..j] + s[j..];
      }
    }
  }

  /** The rewrite of any match, with or without separators, keeps its non-whitespace characters. */
  lemma FixSubNonSpace(sub: string)
    ensures NonSpace(FixSub(sub)) == NonSpace(sub)
  {
    if Runs(sub) != [] {
      FixSubSpec(sub);
      InsertSpacesNonSpace(sub);
    } else {
      assert Separators(sub) == [];
      assert NonSpace(" ") == [];
      NonSpaceInterleave(sub, " ");
    }
  }

  // ---------------------------------------------------------------- texts

  /** `reversed(matches)`. */
  function Reversed(s: seq<string>): (r: seq<string>)
    ensures |r| == |s| && forall i :: 0 <= i < |s| ==> r[i] == s[|s| - 1 - i]
  {
    seq(|s|, i requires 0 <= i < |s| => s[|s| - 1 - i])
  }

  /** The text after rewriting the matches in the given order, each replaced throughout the text. */
  function ApplyAll(text: string, order: seq<string>): string {
    if order == [] then text
    else
      var n := |order| - 1;
      var t := ApplyAll(text, order[..n]);
      ReplaceAll(t, order[n], FixSub(order[n]))
  }

  lemma ApplyAllSnoc(text: string, order: seq<string>, k: nat)
    requires k < |order|
    ensures ApplyAll(text, order[..k + 1]) == ReplaceAll(ApplyAll(text, order[..k]), order[k], FixSub(order[k]))
  {
    assert order[..k + 1][..k] == order[..k];
  }

  /** One output text: the matches rewritten from last to first, then stripped. */
  function FixText(text: string, matches: seq<string>): string {
    Strip(ApplyAll(text, Reversed(matches)))
  }

  /** The rewrites only insert whitespace. */
  lemma {:induction false} ApplyAllNonSpace(text: string, order: seq<string>)
    ensures NonSpace(ApplyAll(text, order)) == NonSpace(text)
  {
    if order != [] {
      var n := |order| - 1;
      ApplyAllNonSpace(text, order[..n]);
      FixSubNonSpace(order[n]);
      ReplaceKeepsNonSpace(ApplyAll(text, order[..n]), order[n], FixSub(order[n]));
    }
  }

  /** An output keeps the non-whitespace characters of its input, in order. */
  lemma FixTextNonSpace(text: string, matches: seq<string>)
    ensures NonSpace(FixText(text, matches)) == NonSpace(text)
  {
    var a := ApplyAll(text, Reversed(matches));
    ApplyAllNonSpace(text, Reversed(matches));
    StripNonSpace(a);
  }

  /** An output has no whitespace at either end. */
  lemma FixTextTrimmed(text: string, matches: seq<string>)
    ensures var r := FixText(text, matches); r == [] || (!IsSpace(r[0]) && !IsSpace(r[|r| - 1]))
  {
    StripEnds(ApplyAll(text, Reversed(matches)));
  }

  /** A text without matches is only stripped. */
  lemma FixTextNoMatch(text: string)
    ensures FixText(text, []) == Strip(text)
  {
  }

  /** `fix_concatenated_words`: one output per text, in order. */
  method FixConcatenatedWords(texts: seq<string>, finditer: string -> seq<string>) returns (result: seq<string>)
    ensures |result| == |texts|
    ensures forall i :: 0 <= i < |texts| ==> result[i] == FixText(texts[i], finditer(texts[i]))
  {
    ghost var expected := seq(|texts|, k requires 0 <= k < |texts| => FixText(texts[k], finditer(texts[k])));
    result := [];
    for i := 0 to |texts|
      invariant result == expected[..i]
    {
      var text := texts[i];
      var matches := finditer(text);
      var order := Reversed(matches);
      for k := 0 to |order|
        invariant text == ApplyAll(texts[i], order[..k])
      {
        ApplyAllSnoc(texts[i], order, k);
        var problematicSub := order[k];
        var separators := Separators(problematicSub);
        var fixedSub := ReSub(problematicSub, separators);
        text := ReplaceAll(text, problematicSub, fixedSub);
      }
      assert order[..|order|] == order;
      assert Strip(text) == expected[i];
      PrefixSnoc(expected, result, i, Strip(text));
      result := result + [Strip(text)];
    }
    assert expected[..|texts|] == expected;
  }

  // ------------------------------------------------------------ examples

  /** No character of `s` is a separator character. */
  predicate NoSep(s: string) {
    forall k :: 0 <= k < |s| ==> !IsSep(s[k])
  }

  /** Characters that are not separators pass through the rewrite unchanged. */
  lemma {:induction false} NoSepInsert(w: string, t: string)
    requires NoSep(w)
    ensures InsertSpaces(w + t) == w + InsertSpaces(t)
  {
    if w != [] {
      var s := w + t;
      assert s[0] == w[0];
      assert s[1..] == w[1..] + t;
      NoSepInsert(w[1..], t);
      assert InsertSpaces(s) == [s[0]] + InsertSpaces(s[1..]);
      assert w == [w[0]] + w[1..];
    } else {
      assert w + t == t;
    }
  }

  /** Characters that are not separators start no run. */
  lemma {:induction false} NoSepRuns(w: string, t: string)
    requires NoSep(w)
    ensures Runs(w + t) == Runs(t)
  {
    if w != [] {
      var s := w + t;
      assert s[0] == w[0];
      assert s[1..] == w[1..] + t;
      NoSepRuns(w[1..], t);
      assert Runs(s) == Runs(s[1..]);
    } else {
      assert w + t == t;
    }
  }

  /** Both scans. */
  lemma NoSepPrefix(w: string, t: string)
    requires NoSep(w)
    ensures InsertSpaces(w + t) == w + InsertSpaces(t)
    ensures Runs(w + t) == Runs(t)
  {
    NoSepInsert(w, t);
    NoSepRuns(w, t);
  }

  /** A whole run of separator characters is one run, followed by one space. */
  lemma RunPrefix(r: string, t: string)
    requires r != [] && AllSep(r)
    requires t == [] || !IsSep(t[0])
    ensures InsertSpaces(r + t) == r + " " + InsertSpaces(t)
    ensures Runs(r + t) == [r] + Runs(t)
  {
    var s := r + t;
    var j := SepRunEnd(s, 0);
    assert j == |r| by {
      assert forall k :: 0 <= k < |r| ==> s[k] == r[k];
      assert |r| < |s| ==> s[|r|] == t[0];
    }
    assert s[..j] == r && s[j..] == t;
  }

  /** The inserted spaces neither split nor join runs: the runs after the rewrite are the runs before it. */
  lemma {:induction false} InsertSpacesKeepsRuns(s: string)
    ensures Runs(InsertSpaces(s)) == Runs(s)
    decreases |s|
  {
    if s != [] {
      if !IsSep(s[0]) {
        InsertSpacesKeepsRuns(s[1..]);
        assert NoSep([s[0]]);
        NoSepPrefix([s[0]], InsertSpaces(s[1..]));
      } else {
        var j := SepRunEnd(s, 0);
        var r, t := s[..j], s[j..];
        assert s == r + t;
        InsertSpacesKeepsRuns(t);
        RunPrefix(r, t);
        RunThenSpace(r, ' ', InsertSpaces(t));
      }
    }
  }

  lemma RunThenSpace(r: string, c: char, x: string)
    requires r != [] && AllSep(r) && !IsSep(c)
    ensures Runs(r + [c] + x) == [r] + Runs(x)
  {
    var t := [c] + x;
    assert NoSep([c]);
    NoSepPrefix([c], x);
    RunPrefix(r, t);
    assert r + [c] + x == r + t;
  }

  /** A word, then a run of separators: the run gets its space and the scan goes on after it. */
  lemma WordRun(w: string, r: string, t: string)
    requires NoSep(w) && r != [] && AllSep(r)
    requires t == [] || !IsSep(t[0])
    ensures InsertSpaces(w + r + t) == w + r + " " + InsertSpaces(t)
    ensures Runs(w + r + t) == [r] + Runs(t)
  {
    RunPrefix(r, t);
    NoSepPrefix(w, r + t);
    assert w + r + t == w + (r + t);
  }

  /** Two words glued by one run: the shape of `HELP!HELP`. */
  lemma GluedPair(w1: string, r: string, w2: string)
    requires NoSep(w1) && NoSep(w2) && r != [] && AllSep(r)
    ensures FixSub(w1 + r + w2) == w1 + r + " " + w2
  {
    NoSepPrefix(w2, []);
    assert w2 + [] == w2;
    WordRun(w1, r, w2);
    FixSubSpec(w1 + r + w2);
  }

  /** `HELP!HELP`, the match in `HELP!HELP! I need some help!`, becomes `HELP! HELP`. */
  lemma HelpExample(s: string)
    requires s == "HELP!HELP"
    ensures FixSub(s) == "HELP! HELP"
  {
    assert s == "HELP" + "!" + "HELP";
    GluedPair("HELP", "!", "HELP");
  }

  /** Words each followed by a run, ending in a run: the shape of `TEST//TEST//`. */
  lemma GluedTrailing(w1: string, r1: string, w2: string, r2: string)
    requires NoSep(w1) && NoSep(w2) && w2 != [] && r1 != [] && AllSep(r1) && r2 != [] && AllSep(r2)
    ensures FixSub(w1 + r1 + (w2 + r2)) == w1 + r1 + " " + (w2 + r2 + " ")
  {
    WordRun(w2, r2, []);
    assert w2 + r2 + [] == w2 + r2;
    WordRun(w1, r1, w2 + r2);
    FixSubSpec(w1 + r1 + (w2 + r2));
  }

  /** `TEST//TEST//`, the match in `TEST//TEST//TEST`, becomes `TEST// TEST// `. */
  lemma SlashExample(s: string)
    requires s == "TEST//TEST//"
    ensures FixSub(s) == "TEST// TEST// "
  {
    assert s == "TEST" + "//" + ("TEST" + "//");
    GluedTrailing("TEST", "//", "TEST", "//");
  }

  /** Four words glued by three runs: the shape of `BEEP||||BEEP|||BEEP||BEEP`. */
  lemma GluedFour(w1: string, r1: string, w2: string, r2: string, w3: string, r3: string, w4: string)
    requires NoSep(w1) && NoSep(w2) && NoSep(w3) && NoSep(w4) && w2 != [] && w3 != [] && w4 != []
    requires r1 != [] && AllSep(r1) && r2 != [] && AllSep(r2) && r3 != [] && AllSep(r3)
    ensures FixSub(w1 + r1 + (w2 + r2 + (w3 + r3 + w4)))
         == w1 + r1 + " " + (w2 + r2 + " " + (w3 + r3 + " " + w4))
  {
    NoSepInsert(w4, []);
    assert w4 + [] == w4;
    NoSepRuns(w4, []);
    var t3 := w3 + r3 + w4;
    WordRun(w3, r3, w4);
    var t2 := w2 + r2 + t3;
    WordRun(w2, r2, t3);
    WordRun(w1, r1, t2);
    FixSubSpec(w1 + r1 + t2);
  }

  lemma BarsPieces(s: string)
    requires s == "BEEP||||BEEP|||BEEP||BEEP"
    ensures s == "BEEP" + "||||" + ("BEEP" + "|||" + ("BEEP" + "||" + "BEEP"))
  {
  }

  lemma BarsOutput(w: string, r1: string, r2: string, r3: string)
    requires w == "BEEP" && r1 == "||||" && r2 == "|||" && r3 == "||"
    ensures w + r1 + " " + (w + r2 + " " + (w + r3 + " " + w)) == "BEEP|||| BEEP||| BEEP|| BEEP"
  {
  }

  /**
   * The one match of `BEEP||||BEEP|||BEEP||BEEP` gets a space after each of
   * its three runs; `||` is never matched inside `||||`.
   */
  lemma BarsExample(s: string)
    requires s == "BEEP||||BEEP|||BEEP||BEEP"
    ensures FixSub(s) == "BEEP|||| BEEP||| BEEP|| BEEP"
  {
    var w, r1, r2, r3 := "BEEP", "||||", "|||", "||";
    assert NoSep(w);
    assert AllSep(r1) && AllSep(r2) && AllSep(r3);
    BarsPieces(s);
    GluedFour(w, r1, w, r2, w, r3, w);
    BarsOutput(w, r1, r2, r3);
  }
}
