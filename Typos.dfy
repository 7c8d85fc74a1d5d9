/**
 * `src/util/typos_processor.py`: the repeated-character collapse
 * `repeat_pattern.sub(r'\1\1', ...)` and the token-level rewrite that
 * lower-cases, collapses and spell-corrects a tokenised document.
 */
module Typos {
  import opened Strings
  import opened SpellChecker

  // ------------------------------------------------------ repeat collapse

  /** Equality of two characters under `re.IGNORECASE` (ASCII case folding). */
  predicate SameIgnoringCase(a: char, b: char) {
    LowerChar(a) == LowerChar(b)
  }

  /**
   * `repeat_pattern` (`(\w|[^\w\d\s])\1{2,}`, case-insensitive) can match at
   * index `i`: a non-whitespace character followed by at least two more
   * characters equal to it ignoring case.
   */
  predicate RepeatAt(s: string, i: nat) {
    i + 2 < |s| && !IsSpace(s[i]) && SameIgnoringCase(s[i + 1], s[i]) && SameIgnoringCase(s[i + 2], s[i])
  }

  /** No match of `repeat_pattern` anywhere in `s`. */
  predicate NoRepeats(s: string) {
    forall i :: 0 <= i < |s| ==> !RepeatAt(s, i)
  }

  /** The end of the greedy `\1{2,}` run: the first index at or after `i` whose character differs from `c` ignoring case. */
  function RunEnd(s: string, c: char, i: nat): (j: nat)
    requires i <= |s|
    decreases |s| - i
    ensures i <= j <= |s|
    ensures forall k :: i <= k < j ==> SameIgnoringCase(s[k], c)
    ensures j == |s| || !SameIgnoringCase(s[j], c)
  {
    if i == |s| || !SameIgnoringCase(s[i], c) then i else RunEnd(s, c, i + 1)
  }

  /**
   * `repeat_pattern.sub(r'\1\1', s)`: scanning left to right, every maximal
   * case-insensitive run of three or more copies of a non-whitespace character
   * becomes two copies of the run's first character.
   */
  function Collapse(s: string): (r: string)
    ensures |r| <= |s|
    decreases |s|
  {
    if s == [] then []
    else if RepeatAt(s, 0) then [s[0], s[0]] + Collapse(s[RunEnd(s, s[0], 3)..])
    else [s[0]] + Collapse(s[1..])
  }

  /** The collapse keeps the first character and, ignoring case, the second. */
  lemma CollapseStart(s: string)
    requires s != []
    ensures Collapse(s) != [] && Collapse(s)[0] == s[0]
    ensures |s| > 1 ==> |Collapse(s)| > 1 && SameIgnoringCase(Collapse(s)[1], s[1])
  {
    if !RepeatAt(s, 0) && |s| > 1 {
      assert Collapse(s) == [s[0]] + Collapse(s[1..]);
    }
  }

  /** A repeat run inside `b` is one of `a + b`, shifted by `|a|`. */
  lemma RepeatShift(a: string, b: string, i: nat)
    requires i >= |a|
    ensures RepeatAt(a + b, i) <==> RepeatAt(b, i - |a|)
  {
    if i + 2 < |a + b| {
      assert (a + b)[i] == b[i - |a|] && (a + b)[i + 1] == b[i - |a| + 1] && (a + b)[i + 2] == b[i - |a| + 2];
    }
  }

  /** After the collapse, no run of three equal non-whitespace characters is left. */
  lemma {:induction false} CollapseNoRepeats(s: string)
    ensures NoRepeats(Collapse(s))
    decreases |s|
  {
    if s != [] {
      var r := Collapse(s);
      var head, t;
      if RepeatAt(s, 0) {
        head, t := [s[0], s[0]], s[RunEnd(s, s[0], 3)..];
      } else {
        head, t := [s[0]], s[1..];
      }
      assert r == head + Collapse(t);
      CollapseNoRepeats(t);
      if t != [] {
        CollapseStart(t);
      }
      forall i | 0 <= i < |r|
        ensures !RepeatAt(r, i)
      {
        if i >= |head| {
          RepeatShift(head, Collapse(t), i);
        }
      }
    }
  }

  /** A string without repeat runs is left as it is. */
  lemma {:induction false} CollapseFixpoint(s: string)
    requires NoRepeats(s)
    ensures Collapse(s) == s
    decreases |s|
  {
    if s != [] {
      assert !RepeatAt(s, 0);
      var t := s[1..];
      forall i | 0 <= i < |t| ensures !RepeatAt(t, i) {
        assert RepeatAt(t, i) ==> RepeatAt(s, i + 1);
      }
      CollapseFixpoint(t);
      assert s == [s[0]] + t;
    }
  }

  /** The collapse is idempotent. */
  lemma CollapseIdempotent(s: string)
    ensures Collapse(Collapse(s)) == Collapse(s)
  {
    CollapseNoRepeats(s);
    CollapseFixpoint(Collapse(s));
  }

  /** A whitespace character never equals a non-whitespace one, even ignoring case. */
  lemma SpaceNotSame(w: char, c: char)
    requires IsSpace(w) && !IsSpace(c)
    ensures !SameIgnoringCase(w, c)
  {
  }

  /** A run cannot extend past a character that differs from it. */
  lemma {:induction false} RunEndAppend(a: string, rest: string, c: char, i: nat)
    requires i <= |a| && rest != [] && !SameIgnoringCase(rest[0], c)
    ensures RunEnd(a + rest, c, i) == RunEnd(a, c, i)
    decreases |a| - i
  {
    if i < |a| {
      assert (a + rest)[i] == a[i];
      if SameIgnoringCase(a[i], c) {
        RunEndAppend(a, rest, c, i + 1);
      }
    } else {
      assert (a + rest)[i] == rest[0];
    }
  }

  /** No run crosses a whitespace character: the text before it and the text from it on collapse apart. */
  lemma {:induction false} CollapseAppendSpace(a: string, rest: string)
    requires rest != [] && IsSpace(rest[0])
    ensures Collapse(a + rest) == Collapse(a) + Collapse(rest)
    decreases |a|
  {
    if a == [] {
      assert a + rest == rest;
    } else {
      var s := a + rest;
      assert s[0] == a[0];
      if RepeatAt(a, 0) {
        assert RepeatAt(s, 0) by {
          assert s[1] == a[1] && s[2] == a[2];
        }
        SpaceNotSame(rest[0], a[0]);
        RunEndAppend(a, rest, a[0], 3);
        var j := RunEnd(a, a[0], 3);
        assert s[j..] == a[j..] + rest;
        CollapseAppendSpace(a[j..], rest);
      } else {
        assert !RepeatAt(s, 0) by {
          if !IsSpace(a[0]) && |s| > 2 {
            SpaceNotSame(rest[0], a[0]);
            if |a| == 1 {
              assert s[1] == rest[0];
            } else if |a| == 2 {
              assert s[1] == a[1] && s[2] == rest[0];
            } else {
              assert s[1] == a[1] && s[2] == a[2];
            }
          }
        }
        assert s[1..] == a[1..] + rest;
        CollapseAppendSpace(a[1..], rest);
      }
    }
  }

  /** Whitespace is never touched and no run crosses it: the collapse works on each side of a whitespace character separately. */
  lemma CollapseSpaces(a: string, w: char, b: string)
    requires IsSpace(w)
    ensures Collapse(a + [w] + b) == Collapse(a) + [w] + Collapse(b)
  {
    assert a + [w] + b == a + ([w] + b);
    CollapseAppendSpace(a, [w] + b);
    assert !RepeatAt([w] + b, 0);
    assert ([w] + b)[1..] == b;
  }

  /** The trailing ellipsis of the test text collapses to two dots. */
  lemma CollapseEllipsis()
    ensures Collapse("ago...") == "ago.."
  {
    var s := "ago...";
    assert !RepeatAt(s, 0) && !RepeatAt(s, 1) && !RepeatAt(s, 2) && RepeatAt(s[3..], 0);
    assert RunEnd(s[3..], '.', 3) == 3;
    assert Collapse(s[3..]) == "..";
    assert Collapse(s[2..]) == "o..";
    assert Collapse(s[1..]) == "go..";
  }

  // ------------------------------------------------------ token rewrite

  /** One token of the external tokenizer. */
  datatype Token = Token(
    text: string,        // surface text
    lemmaText: string,   // `lemma_`
    isStop: bool,        // `is_stop`
    isPunct: bool,       // `is_punct`
    whitespace: string)  // `whitespace_`: the whitespace that follows the token

  /** What the emoticon detector reports for a text: whether it found any, and their meanings. */
  datatype Detection = Detection(flag: bool, mean: seq<string>)

  /** `token_l`: an emoticon keeps its surface text, any other token becomes its lower-cased, collapsed text. */
  function Processed(t: Token, emot: string -> Detection): string {
    if emot(t.text).flag then t.text else Collapse(Lower(t.text))
  }

  /** The tokens handed to the spell checker: no emoticon, no stop word, no punctuation, and a non-blank lemma. */
  predicate IsCandidate(t: Token, emot: string -> Detection) {
    !emot(t.text).flag && !t.isStop && !t.isPunct && Strip(t.lemmaText) != []
  }

  /** The images under `f` of the elements of `s` that satisfy `keep`, in order. */
  function FilterMap<T>(s: seq<T>, keep: T -> bool, f: T -> string): (r: seq<string>)
    ensures |r| <= |s|
  {
    if s == [] then []
    else
      var prefix := FilterMap(s[..|s| - 1], keep, f);
      var t := s[|s| - 1];
      if keep(t) then prefix + [f(t)] else prefix
  }

  /** A word is produced by `FilterMap` exactly when it is the image of a kept element. */
  lemma {:induction false} FilterMapMembers<T>(s: seq<T>, keep: T -> bool, f: T -> string, w: string)
    ensures w in FilterMap(s, keep, f) <==> exists i :: 0 <= i < |s| && keep(s[i]) && w == f(s[i])
  {
    if s != [] {
      var n := |s| - 1;
      var prefix := s[..n];
      FilterMapMembers(prefix, keep, f, w);
      if w in FilterMap(prefix, keep, f) {
        var i :| 0 <= i < |prefix| && keep(prefix[i]) && w == f(prefix[i]);
        assert prefix[i] == s[i];
      }
      if exists i :: 0 <= i < |s| && keep(s[i]) && w == f(s[i]) {
        var i :| 0 <= i < |s| && keep(s[i]) && w == f(s[i]);
        if i < n {
          assert prefix[i] == s[i];
        }
      }
    }
  }

  /** The images under `f` of the elements of `s`, in order. */
  function MapSeq<T, U>(s: seq<T>, f: T -> U): (r: seq<U>)
    ensures |r| == |s|
  {
    if s == [] then [] else MapSeq(s[..|s| - 1], f) + [f(s[|s| - 1])]
  }

  lemma {:induction false} MapSeqIndex<T, U>(s: seq<T>, f: T -> U)
    ensures forall k :: 0 <= k < |s| ==> MapSeq(s, f)[k] == f(s[k])
  {
    if s != [] {
      var n := |s| - 1;
      MapSeqIndex(s[..n], f);
      assert forall k :: 0 <= k < n ==> s[..n][k] == s[k];
    }
  }

  /** One more element of the input adds its image at the end. */
  lemma MapSeqSnoc<T, U>(s: seq<T>, f: T -> U, i: int)
    requires 0 <= i < |s|
    ensures MapSeq(s[..i + 1], f) == MapSeq(s[..i], f) + [f(s[i])]
  {
    assert s[..i + 1][..i] == s[..i];
  }

  /** `tokens` after the token loop: the processed text of every token. */
  function Texts(doc: seq<Token>, emot: string -> Detection): (r: seq<string>)
    ensures |r| == |doc|
  {
    MapSeq(doc, t => Processed(t, emot))
  }

  lemma TextsIndex(doc: seq<Token>, emot: string -> Detection)
    ensures forall k :: 0 <= k < |doc| ==> Texts(doc, emot)[k] == Processed(doc[k], emot)
  {
    MapSeqIndex(doc, t => Processed(t, emot));
  }

  /** `word_tokens`: the processed text of every candidate token, in order. */
  function Candidates(doc: seq<Token>, emot: string -> Detection): (words: seq<string>)
    ensures |words| <= |doc|
  {
    FilterMap(doc, t => IsCandidate(t, emot), t => Processed(t, emot))
  }

  /** Token `i` of `doc` is a candidate whose processed text is `w`. */
  predicate CandidateAt(doc: seq<Token>, emot: string -> Detection, i: int, w: string) {
    0 <= i < |doc| && IsCandidate(doc[i], emot) && w == Processed(doc[i], emot)
  }

  /**
   * A word is a spell-checker candidate exactly when some token that is not an
   * emoticon, not a stop word, not punctuation and has a non-blank lemma has
   * it as its lower-cased, collapsed text.
   */
  lemma CandidatesMembers(doc: seq<Token>, emot: string -> Detection, w: string)
    ensures w in Candidates(doc, emot) <==> exists i :: CandidateAt(doc, emot, i, w)
  {
    var keep := t => IsCandidate(t, emot);
    var f := t => Processed(t, emot);
    FilterMapMembers(doc, keep, f, w);
    if w in Candidates(doc, emot) {
      var i :| 0 <= i < |doc| && keep(doc[i]) && w == f(doc[i]);
      assert CandidateAt(doc, emot, i, w);
    }
    if exists i :: CandidateAt(doc, emot, i, w) {
      var i :| CandidateAt(doc, emot, i, w);
      assert keep(doc[i]) && w == f(doc[i]);
    }
  }

  /** One more token: its processed text is appended, and to `word_tokens` exactly when it is a candidate. */
  lemma PrefixStep(doc: seq<Token>, emot: string -> Detection, i: int)
    requires 0 <= i < |doc|
    ensures Texts(doc[..i + 1], emot) == Texts(doc[..i], emot) + [Processed(doc[i], emot)]
    ensures Candidates(doc[..i + 1], emot) ==
      if IsCandidate(doc[i], emot) then Candidates(doc[..i], emot) + [Processed(doc[i], emot)] else Candidates(doc[..i], emot)
  {
    assert doc[..i + 1][..i] == doc[..i];
  }

  lemma PrefixWhole(doc: seq<Token>, emot: string -> Detection, tokens: seq<string>, words: seq<string>)
    requires tokens == Texts(doc[..|doc|], emot) && words == Candidates(doc[..|doc|], emot)
    ensures tokens == Texts(doc, emot) && words == Candidates(doc, emot)
  {
    assert doc[..|doc|] == doc;
  }

  /** What a candidate looks like: not an emoticon, and its lower-cased, collapsed text. */
  lemma CandidateForm(doc: seq<Token>, emot: string -> Detection, w: string)
    requires w in Candidates(doc, emot)
    ensures exists i :: 0 <= i < |doc| && !emot(doc[i].text).flag && !doc[i].isStop && !doc[i].isPunct &&
              Strip(doc[i].lemmaText) != [] && w == Collapse(Lower(doc[i].text))
  {
    CandidatesMembers(doc, emot, w);
    var i :| CandidateAt(doc, emot, i, w);
  }

  /** `dict(zip(keys, values))`: a later pair overwrites an earlier one with the same key. */
  function ZipMap(keys: seq<string>, values: seq<string>): (m: map<string, string>)
    requires |keys| == |values|
    ensures forall k :: k in m <==> k in keys
    ensures forall k :: k in m ==> exists i :: 0 <= i < |keys| && keys[i] == k && m[k] == values[i]
  {
    if keys == [] then map[]
    else
      var n := |keys| - 1;
      var prefix := ZipMap(keys[..n], values[..n]);
      assert forall i :: 0 <= i < n ==> keys[..n][i] == keys[i] && values[..n][i] == values[i];
      prefix[keys[n] := values[n]]
  }

  /** Zipping words with their corrections gives a map in which every word is sent to its correction. */
  lemma ZipCorrections(words: seq<string>, corrected: seq<string>, b: Backends)
    requires |words| == |corrected|
    requires forall i :: 0 <= i < |words| ==> corrected[i] == Resolve(b, words[i])
    ensures forall w :: w in ZipMap(words, corrected) <==> w in words
    ensures forall w :: w in ZipMap(words, corrected) ==> ZipMap(words, corrected)[w] == Resolve(b, w)
  {
    var m := ZipMap(words, corrected);
    forall w | w in m ensures m[w] == Resolve(b, w) {
      var i :| 0 <= i < |words| && words[i] == w && m[w] == corrected[i];
    }
  }

  /** A token's text after correction: `mapper.get(t, t)` applied to its processed text. */
  function Final(t: Token, words: seq<string>, b: Backends, emot: string -> Detection): string {
    var p := Processed(t, emot);
    if p in words then Resolve(b, p) else p
  }

  /** Looking processed texts up in a map of corrections of the candidates gives each token's final text. */
  lemma MappedTokens(doc: seq<Token>, emot: string -> Detection, b: Backends,
                     processed: seq<string>, mapper: map<string, string>, mapped: seq<string>)
    requires |processed| == |doc| == |mapped|
    requires forall k :: 0 <= k < |doc| ==> processed[k] == Processed(doc[k], emot)
    requires forall w :: w in mapper <==> w in Candidates(doc, emot)
    requires forall w :: w in mapper ==> mapper[w] == Resolve(b, w)
    requires forall k :: 0 <= k < |doc| ==>
               mapped[k] == if processed[k] in mapper then mapper[processed[k]] else processed[k]
    ensures forall k :: 0 <= k < |doc| ==> mapped[k] == Final(doc[k], Candidates(doc, emot), b, emot)
  {
  }

  /** The corrected tokens, each followed by its original trailing whitespace. */
  function RebuiltTokens(doc: seq<Token>, b: Backends, emot: string -> Detection): (r: seq<string>)
    ensures |r| == |doc|
  {
    var words := Candidates(doc, emot);
    seq(|doc|, i requires 0 <= i < |doc| => Final(doc[i], words, b, emot) + doc[i].whitespace)
  }

  /** The re-joined text before the second collapse. */
  function Rebuilt(doc: seq<Token>, b: Backends, emot: string -> Detection): string {
    Concat(RebuiltTokens(doc, b, emot))
  }

  /** The result of `typos_processor`. */
  function TyposText(doc: seq<Token>, b: Backends, emot: string -> Detection): (r: string)
    ensures NoRepeats(r)
    ensures Collapse(r) == r
  {
    var text := Rebuilt(doc, b, emot);
    CollapseNoRepeats(text);
    CollapseFixpoint(Collapse(text));
    Collapse(text)
  }

  /** The body of the token loop for one token: its processed text, and whether it is a candidate. */
  method ProcessToken(token: Token, emot: string -> Detection) returns (tokenL: string, isWord: bool)
    ensures tokenL == Processed(token, emot)
    ensures isWord == IsCandidate(token, emot)
  {
    var emotion := emot(token.text).flag;
    tokenL := token.text;
    isWord := false;
    if !emotion {
      tokenL := Collapse(Lower(token.text));
      if !token.isStop && !token.isPunct && Strip(token.lemmaText) != [] {
        isWord := true;
      }
    }
  }

  /**
   * The token loop of `typos_processor`: every token's processed text, and
   * the candidates handed to the spell checker.
   */
  method ProcessTokens(doc: seq<Token>, emot: string -> Detection) returns (tokens: seq<string>, wordTokens: seq<string>)
    ensures tokens == Texts(doc, emot)
    ensures wordTokens == Candidates(doc, emot)
  {
    tokens := [];
    wordTokens := [];
    for i := 0 to |doc|
      invariant tokens == Texts(doc[..i], emot)
      invariant wordTokens == Candidates(doc[..i], emot)
    {
      var tokenL, isWord := ProcessToken(doc[i], emot);
      PrefixStep(doc, emot, i);
      if isWord {
        wordTokens := wordTokens + [tokenL];
      }
      tokens := tokens + [tokenL];
    }
    PrefixWhole(doc, emot, tokens, wordTokens);
  }

  /**
   * `typos_processor` with the module-level spell checker `checker`: process
   * every token, correct the candidates, map the corrections back by text,
   * re-join with the original whitespace and collapse again.
   */
  method TyposProcessor(doc: seq<Token>, checker: CachingSpellChecker, emot: string -> Detection)
    returns (result: string)
    requires checker.Valid()
    modifies checker
    ensures checker.Valid()
    ensures result == TyposText(doc, checker.backends, emot)
  {
    var tokens, wordTokens := ProcessTokens(doc, emot);
    TextsIndex(doc, emot);
    var correctedWords := checker.CorrectWords(wordTokens);
    var mapper := ZipMap(wordTokens, correctedWords);
    ZipCorrections(wordTokens, correctedWords, checker.backends);
    var mapped := seq(|tokens|, k requires 0 <= k < |tokens| => if tokens[k] in mapper then mapper[tokens[k]] else tokens[k]);
    MappedTokens(doc, emot, checker.backends, tokens, mapper, mapped);
    var rebuilt := seq(|mapped|, k requires 0 <= k < |mapped| => mapped[k] + doc[k].whitespace);
    assert rebuilt == RebuiltTokens(doc, checker.backends, emot);
    var text := Concat(rebuilt);
    result := Collapse(text);
  }
}
