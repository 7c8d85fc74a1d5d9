/**
 * `src/transformers/features_extractor.py`: the per-document hand-crafted
 * features of `ExtraFeatures`. URL extraction, the emoticon detector, the
 * sentence segmentation and the tokens come from outside as oracles; the
 * rates and the median are exact rationals.
 */
module FeaturesExtractor {
  import opened Strings
  import opened SpellChecker
  import opened Typos

  /** One cell of a feature row: the corrected text, a count, or a rate. */
  datatype Feature = Text(text: string) | Int(n: int) | Real(x: real)

  /** A parsed document: its tokens and the texts of its sentences. */
  datatype Doc = Doc(tokens: seq<Token>, sents: seq<string>)

  /** `doc.text`: every token followed by its trailing whitespace. */
  function DocText(doc: Doc): string {
    Concat(seq(|doc.tokens|, i requires 0 <= i < |doc.tokens| => doc.tokens[i].text + doc.tokens[i].whitespace))
  }

  /** The collaborators `ExtraFeatures` builds in its constructor. */
  datatype Extractor = Extractor(
    findUrls: string -> seq<string>,  // `URLExtract.find_urls`
    emot: string -> Detection,        // `emot.emoticons`
    meanings: set<string>)            // the values of `EMOTICONS_EMO`

  function Max(a: int, b: int): int {
    if a >= b then a else b
  }

  // ------------------------------------------------------- feature names

  /**
   * A column of the feature table: one of the twelve fixed features, or an
   * emoticon meaning. `Name` gives the column's name.
   */
  datatype Column =
    | TextCol | Length | UpcaseRate | ExcMarkRate | QMarkRate | DotsRate | NewLinesRate
    | MedianSentenceLen | SentencesCount | UrlsCounter | Censured | Compression
    | Meaning(meaning: string)
  {
    function Name(): string {
      match this
      case TextCol => "text"
      case Length => "length"
      case UpcaseRate => "upcase_rate"
      case ExcMarkRate => "exc_mark_rate"
      case QMarkRate => "q_mark_rate"
      case DotsRate => "dots_rate"
      case NewLinesRate => "new_lines_rate"
      case MedianSentenceLen => "median_sentence_len"
      case SentencesCount => "sentences_count"
      case UrlsCounter => "urls_counter"
      case Censured => "censured"
      case Compression => "compression"
      case Meaning(m) => m
    }
  }

  /** The twelve fixed columns, in row order. */
  const FixedColumns: seq<Column> := [
    TextCol, Length, UpcaseRate, ExcMarkRate, QMarkRate, DotsRate,
    NewLinesRate, MedianSentenceLen, SentencesCount, UrlsCounter,
    Censured, Compression]

  /** `feature_names_`: the fixed columns, then every emoticon meaning once, in sorted order. */
  function FeatureNames(meanings: set<string>): (names: seq<Column>)
    ensures |names| == |FixedColumns| + |meanings|
    ensures names[..|FixedColumns|] == FixedColumns
    ensures forall i :: |FixedColumns| <= i < |names| ==> names[i].Meaning? && names[i].meaning in meanings
    ensures forall m :: m in meanings ==> Meaning(m) in names
    ensures forall i, j :: |FixedColumns| <= i < j < |names| ==>
              LexLe(names[i].Name(), names[j].Name()) && names[i] != names[j]
  {
    var sorted := SortedSet(meanings);
    var tail := seq(|sorted|, i requires 0 <= i < |sorted| => Meaning(sorted[i]));
    AppendMeanings(FixedColumns, meanings, sorted, tail);
    FixedColumns + tail
  }

  /** The emoticon columns after any fixed ones, one per meaning in the order of `sorted`. */
  lemma AppendMeanings(fixed: seq<Column>, meanings: set<string>, sorted: seq<string>, tail: seq<Column>)
    requires |sorted| == |meanings| && forall x :: x in sorted <==> x in meanings
    requires forall i, j :: 0 <= i < j < |sorted| ==> LexLe(sorted[i], sorted[j]) && sorted[i] != sorted[j]
    requires |tail| == |sorted| && forall i :: 0 <= i < |sorted| ==> tail[i] == Meaning(sorted[i])
    ensures var names := fixed + tail;
      |names| == |fixed| + |meanings| && names[..|fixed|] == fixed &&
      (forall i :: |fixed| <= i < |names| ==> names[i].Meaning? && names[i].meaning in meanings) &&
      (forall m :: m in meanings ==> Meaning(m) in names) &&
      (forall i, j :: |fixed| <= i < j < |names| ==> LexLe(names[i].Name(), names[j].Name()) && names[i] != names[j])
  {
    var names := fixed + tail;
    assert names[..|fixed|] == fixed;
    forall i | |fixed| <= i < |names| ensures names[i] == tail[i - |fixed|] {
    }
    forall m | m in meanings ensures Meaning(m) in names {
      var i :| 0 <= i < |sorted| && sorted[i] == m;
      assert names[|fixed| + i] == Meaning(m);
    }
  }

  // -------------------------------------------------------- replace_urls

  /** The characters `replace_urls` strips from the end of a found URL. */
  const UrlTrailing: set<char> := {'.', ',', '!', '?', ':', ';'}

  /** The placeholder every URL is replaced with. */
  const LinkMark: string := "[l]"

  /** The found URLs with their trailing punctuation stripped. */
  function StrippedUrls(found: seq<string>): (urls: seq<string>)
    ensures |urls| == |found|
    ensures forall i :: 0 <= i < |urls| ==> urls[i] <= found[i]
    ensures forall i :: 0 <= i < |urls| ==> urls[i] == [] || urls[i][|urls[i]| - 1] !in UrlTrailing
  {
    seq(|found|, i requires 0 <= i < |found| => RStripChars(found[i], UrlTrailing))
  }

  /** `text` after `result = result.replace(url, '[l]')` for each URL in order. */
  function ReplaceEach(text: string, urls: seq<string>): string {
    if urls == [] then text
    else ReplaceAll(ReplaceEach(text, urls[..|urls| - 1]), urls[|urls| - 1], LinkMark)
  }

  /** `replace_urls`: replace every found URL, minus its trailing punctuation, by `[l]`, and count the URLs found. */
  method ReplaceUrls(text: string, found: seq<string>) returns (result: string, urlsCounter: nat)
    ensures urlsCounter == |found|
    ensures result == ReplaceEach(text, StrippedUrls(found))
  {
    var urls := StrippedUrls(found);
    urlsCounter := |urls|;
    result := text;
    for i := 0 to |urls|
      invariant result == ReplaceEach(text, urls[..i])
    {
      assert urls[..i + 1][..i] == urls[..i];
      result := ReplaceAll(result, urls[i], LinkMark);
    }
    assert urls[..|urls|] == urls;
  }

  /** URLs that do not occur in the text leave it unchanged; in particular, so does finding none. */
  lemma {:induction false} ReplaceEachAbsent(text: string, urls: seq<string>)
    requires forall i :: 0 <= i < |urls| ==> urls[i] != [] && !Contains(text, urls[i])
    ensures ReplaceEach(text, urls) == text
  {
    if urls != [] {
      var n := |urls| - 1;
      assert forall i :: 0 <= i < n ==> urls[..n][i] == urls[i];
      ReplaceEachAbsent(text, urls[..n]);
      ReplaceAbsent(text, urls[n], LinkMark);
    }
  }

  /** Replacing one non-empty URL cuts the text at its occurrences, none of which survives in the pieces, and puts `[l]` between them. */
  lemma ReplaceOne(text: string, url: string)
    requires url != []
    ensures var pieces := Split(text, url);
      ReplaceEach(text, [url]) == Join(pieces, LinkMark) &&
      Join(pieces, url) == text &&
      forall k :: 0 <= k < |pieces| ==> !Contains(pieces[k], url)
  {
    assert [url][..0] == [];
    JoinSplit(text, url);
    SplitPartsClean(text, url);
  }

  // ------------------------------------------------------ sentences_stat

  /** The lengths of the stripped sentences, keeping only the non-zero ones. */
  function SentenceLengths(sents: seq<string>): (lens: seq<int>)
    ensures |lens| <= |sents|
    ensures forall i :: 0 <= i < |lens| ==> lens[i] > 0
  {
    if sents == [] then []
    else
      var prefix := SentenceLengths(sents[..|sents| - 1]);
      var n := |Strip(sents[|sents| - 1])|;
      if n > 0 then prefix + [n] else prefix
  }

  /** The positions of the sentences whose stripped text is not empty. */
  function NonBlank(sents: seq<string>): set<int> {
    set i | 0 <= i < |sents| && Strip(sents[i]) != []
  }

  /** One length is kept per non-blank sentence: as many lengths as such sentences. */
  lemma {:induction false} SentenceLengthsCount(sents: seq<string>)
    ensures |SentenceLengths(sents)| == |NonBlank(sents)|
  {
    if sents != [] {
      var n := |sents| - 1;
      var init := sents[..n];
      var last := sents[n];
      SentenceLengthsCount(init);
      NonBlankSnoc(sents);
      if Strip(last) != [] {
        assert n !in NonBlank(init);
      }
    }
  }

  /** Appending a sentence adds its position to the non-blank ones exactly when it is non-blank. */
  lemma NonBlankSnoc(sents: seq<string>)
    requires sents != []
    ensures var n := |sents| - 1;
      NonBlank(sents) == NonBlank(sents[..n]) + (if Strip(sents[n]) != [] then {n} else {})
  {
    var n := |sents| - 1;
    var init := sents[..n];
    forall i | 0 <= i < n ensures init[i] == sents[i] {}
  }

  /** Every non-blank sentence contributes its stripped length. */
  lemma {:induction false} SentenceLengthsComplete(sents: seq<string>, i: nat)
    requires i < |sents| && Strip(sents[i]) != []
    ensures |Strip(sents[i])| in SentenceLengths(sents)
  {
    var n := |sents| - 1;
    if i < n {
      var init := sents[..n];
      assert init[i] == sents[i];
      SentenceLengthsComplete(init, i);
    }
  }

  /** Every kept length is the stripped length of a non-blank sentence. */
  lemma {:induction false} SentenceLengthsSound(sents: seq<string>, x: int)
    requires x in SentenceLengths(sents)
    ensures exists i :: 0 <= i < |sents| && Strip(sents[i]) != [] && x == |Strip(sents[i])|
  {
    var n := |sents| - 1;
    var init := sents[..n];
    if x in SentenceLengths(init) {
      SentenceLengthsSound(init, x);
      var i :| 0 <= i < |init| && Strip(init[i]) != [] && x == |Strip(init[i])|;
      assert init[i] == sents[i];
    } else {
      assert Strip(sents[n]) != [] && x == |Strip(sents[n])|;
    }
  }

  /**
   * The kept lengths are exactly the stripped lengths of the non-blank
   * sentences: each non-blank sentence contributes its stripped length, and
   * each length comes from a non-blank sentence.
   */
  lemma SentenceLengthsMembers(sents: seq<string>)
    ensures forall i :: 0 <= i < |sents| && Strip(sents[i]) != [] ==> |Strip(sents[i])| in SentenceLengths(sents)
    ensures forall x :: x in SentenceLengths(sents) ==>
              exists i :: 0 <= i < |sents| && Strip(sents[i]) != [] && x == |Strip(sents[i])|
  {
    forall i | 0 <= i < |sents| && Strip(sents[i]) != [] ensures |Strip(sents[i])| in SentenceLengths(sents) {
      SentenceLengthsComplete(sents, i);
    }
    forall x | x in SentenceLengths(sents)
      ensures exists i :: 0 <= i < |sents| && Strip(sents[i]) != [] && x == |Strip(sents[i])|
    {
      SentenceLengthsSound(sents, x);
    }
  }

  /** A sentence is counted exactly when it holds a non-whitespace character. */
  lemma CountedSentence(s: string)
    ensures |Strip(s)| > 0 <==> NonSpace(s) != []
  {
    StripNonSpace(s);
    StripEnds(s);
    var t := Strip(s);
    if t != [] {
      assert NonSpace(t) == [t[0]] + NonSpace(t[1..]);
    }
  }

  predicate SortedInts(s: seq<int>) {
    forall i, j :: 0 <= i < j < |s| ==> s[i] <= s[j]
  }

  function InsertSorted(x: int, s: seq<int>): (r: seq<int>)
    ensures multiset(r) == multiset(s) + multiset{x}
    ensures |r| == |s| + 1
  {
    if s == [] || x <= s[0] then [x] + s
    else
      assert s == [s[0]] + s[1..];
      [s[0]] + InsertSorted(x, s[1..])
  }

  /** The head of a sorted sequence is at most each of its elements. */
  lemma SortedHead(a: seq<int>, x: int)
    requires SortedInts(a) && x in multiset(a)
    ensures a[0] <= x
  {
    assert x in a;
    var i :| 0 <= i < |a| && a[i] == x;
  }

  lemma {:induction false} InsertSortedSorted(x: int, s: seq<int>)
    requires SortedInts(s)
    ensures SortedInts(InsertSorted(x, s))
  {
    if s != [] && x > s[0] {
      var rest := InsertSorted(x, s[1..]);
      InsertSortedSorted(x, s[1..]);
      forall i | 0 <= i < |rest| ensures s[0] <= rest[i] {
        InsertSortedBound(x, s, rest, rest[i]);
      }
    }
  }

  lemma InsertSortedBound(x: int, s: seq<int>, rest: seq<int>, e: int)
    requires SortedInts(s) && s != [] && x > s[0]
    requires multiset(rest) == multiset(s[1..]) + multiset{x} && e in multiset(rest)
    ensures s[0] <= e
  {
    if e != x {
      assert s == [s[0]] + s[1..];
      assert e in multiset(s);
      SortedHead(s, e);
    }
  }

  /** `np.sort` of the lengths, by insertion. */
  function SortInts(xs: seq<int>): (r: seq<int>)
    ensures SortedInts(r)
    ensures multiset(r) == multiset(xs)
    ensures |r| == |xs|
  {
    if xs == [] then []
    else
      assert xs == [xs[0]] + xs[1..];
      InsertSortedSorted(xs[0], SortInts(xs[1..]));
      InsertSorted(xs[0], SortInts(xs[1..]))
  }

  /** Two sorted sequences with the same elements are equal. */
  lemma {:induction false} SortedUnique(a: seq<int>, b: seq<int>)
    requires SortedInts(a) && SortedInts(b) && multiset(a) == multiset(b)
    ensures a == b
  {
    if a == [] {
      assert |multiset(b)| == 0;
    } else {
      assert |b| == |multiset(b)| == |multiset(a)| == |a|;
      SortedHead(a, b[0]);
      SortedHead(b, a[0]);
      assert a[0] == b[0];
      var ta, tb := a[1..], b[1..];
      assert a == [a[0]] + ta;
      assert b == [b[0]] + tb;
      assert multiset(ta) == multiset(a) - multiset{a[0]};
      assert multiset(tb) == multiset(b) - multiset{b[0]};
      assert SortedInts(ta) && SortedInts(tb);
      SortedUnique(ta, tb);
    }
  }

  /**
   * `np.nan_to_num(np.median(lens))`: the middle element of the sorted
   * lengths, the mean of the two middle ones for an even count, and 0 for
   * none (the median of an empty array is NaN, which becomes 0).
   */
  function Median(xs: seq<int>): real {
    MiddleOf(SortInts(xs))
  }

  /** The middle of a sorted sequence: its middle element, or the mean of its two middle elements. */
  function MiddleOf(s: seq<int>): real {
    if s == [] then 0.0
    else
      var n := |s|;
      if n % 2 == 1 then s[n / 2] as real else (s[n / 2 - 1] + s[n / 2]) as real / 2.0
  }

  /** The median depends only on the lengths, not on the order of the sentences. */
  lemma MedianPermutation(xs: seq<int>, ys: seq<int>)
    requires multiset(xs) == multiset(ys)
    ensures Median(xs) == Median(ys)
  {
    SortedUnique(SortInts(xs), SortInts(ys));
  }

  /** The median lies between any lower and upper bound of the lengths. */
  lemma MedianBounds(xs: seq<int>, lo: int, hi: int)
    requires xs != []
    requires forall i :: 0 <= i < |xs| ==> lo <= xs[i] <= hi
    ensures lo as real <= Median(xs) <= hi as real
  {
    var s := SortInts(xs);
    forall k | 0 <= k < |s| ensures lo <= s[k] <= hi {
      assert s[k] in multiset(xs);
    }
  }

  /** The median of one length is that length. */
  lemma MedianSingle(x: int)
    ensures Median([x]) == x as real
  {
  }

  /** `sentences_stat`: the median length and the number of non-blank sentences. */
  function SentencesStat(sents: seq<string>): (m: map<Column, Feature>)
    ensures m.Keys == {MedianSentenceLen, SentencesCount}
    ensures m[SentencesCount] == Int(|NonBlank(sents)|) && |NonBlank(sents)| <= |sents|
    ensures m[MedianSentenceLen] == Real(Median(SentenceLengths(sents)))
    ensures m[SentencesCount] == Int(0) ==> m[MedianSentenceLen] == Real(0.0)
  {
    SentenceLengthsCount(sents);
    var lens := SentenceLengths(sents);
    map[MedianSentenceLen := Real(Median(lens)), SentencesCount := Int(|lens|)]
  }

  /** `'Hello!! My name is Jonas.'` has sentences of 7 and 17 characters: median 12, two sentences. */
  lemma SentencesStatExample()
    ensures SentencesStat(["Hello!!", "My name is Jonas."]) ==
      map[MedianSentenceLen := Real(12.0), SentencesCount := Int(2)]
  {
    var sents := ["Hello!!", "My name is Jonas."];
    StripNoop(sents[0]);
    StripNoop(sents[1]);
    assert sents[..1] == ["Hello!!"];
    assert SentenceLengths(sents) == [7, 17];
    assert SortInts([17]) == [17];
    assert SortInts([7, 17]) == [7, 17];
  }

  /** An empty text gives median 0 and no sentences, also when the segmenter reports one empty sentence. */
  lemma SentencesStatEmpty()
    ensures SentencesStat([]) == map[MedianSentenceLen := Real(0.0), SentencesCount := Int(0)]
    ensures SentencesStat([""]) == map[MedianSentenceLen := Real(0.0), SentencesCount := Int(0)]
  {
    assert [""][..0] == [];
  }

  // ----------------------------------------------------------- base_stat

  /** A rate recovers its count when multiplied back by the clamped sentence count. */
  predicate RateOf(f: Feature, count: nat, sentencesCount: int) {
    f.Real? && f.x >= 0.0 && f.x * Max(1, sentencesCount) as real == count as real
  }

  /** `count / max(1, sentences_count)` as an exact rational. */
  function Rate(count: nat, sentencesCount: int): (f: Feature)
    ensures RateOf(f, count, sentencesCount)
  {
    Real(count as real / Max(1, sentencesCount) as real)
  }

  /** `base_stat`: the clamped length and the per-sentence rates of capitals, `!`, `?`, `.` and newlines. */
  function BaseStat(text: string, sentencesCount: int): (m: map<Column, Feature>)
    ensures m.Keys == {Length, UpcaseRate, ExcMarkRate, QMarkRate, DotsRate, NewLinesRate}
    ensures m[Length].Int? && m[Length].n >= 1 && m[Length].n >= |text|
    ensures text != [] ==> m[Length] == Int(|text|)
    ensures text == [] ==> m[Length] == Int(1)
    ensures RateOf(m[UpcaseRate], CountUpper(text), sentencesCount)
    ensures RateOf(m[ExcMarkRate], Count(text, '!'), sentencesCount)
    ensures RateOf(m[QMarkRate], Count(text, '?'), sentencesCount)
    ensures RateOf(m[DotsRate], Count(text, '.'), sentencesCount)
    ensures RateOf(m[NewLinesRate], Count(text, '\n'), sentencesCount)
  {
    map[
      Length := Int(Max(1, |text|)),
      UpcaseRate := Rate(CountUpper(text), sentencesCount),
      ExcMarkRate := Rate(Count(text, '!'), sentencesCount),
      QMarkRate := Rate(Count(text, '?'), sentencesCount),
      DotsRate := Rate(Count(text, '.'), sentencesCount),
      NewLinesRate := Rate(Count(text, '\n'), sentencesCount)]
  }

  // ------------------------------------------------------ emoticons_stat

  /** `Counter.update(items)` on `counts`: one more for every item. */
  function Tally(counts: map<string, int>, items: seq<string>): map<string, int> {
    if items == [] then counts
    else
      var prefix := Tally(counts, items[..|items| - 1]);
      var last := items[|items| - 1];
      prefix[last := (if last in prefix then prefix[last] else 0) + 1]
  }

  /** After the update every item has an entry, and each entry went up by the item's multiplicity. */
  lemma {:induction false} TallyCounts(counts: map<string, int>, items: seq<string>)
    ensures forall k :: k in Tally(counts, items) <==> k in counts || k in items
    ensures forall k :: k in Tally(counts, items) ==>
              Tally(counts, items)[k] == (if k in counts then counts[k] else 0) + multiset(items)[k]
  {
    if items != [] {
      var n := |items| - 1;
      TallyCounts(counts, items[..n]);
      assert items == items[..n] + [items[n]];
    }
  }

  /** `Counter({item: 0 for item in emot_meanings})`. */
  function ZeroCounts(meanings: set<string>): map<string, int> {
    map m | m in meanings :: 0
  }

  /** The counts `emoticons_stat` returns: every meaning from 0, plus one per detected emoticon. */
  function EmotCounts(meanings: set<string>, d: Detection): map<string, int> {
    Tally(ZeroCounts(meanings), if d.flag then d.mean else [])
  }

  /** Every known meaning and every detected one have an entry; each counts its detections. */
  lemma EmotCountsProperties(meanings: set<string>, d: Detection)
    ensures var c := EmotCounts(meanings, d);
      (forall m :: m in c <==> m in meanings || (d.flag && m in d.mean)) &&
      (forall m :: m in c ==> c[m] == if d.flag then multiset(d.mean)[m] else 0)
  {
    TallyCounts(ZeroCounts(meanings), if d.flag then d.mean else []);
  }

  /** Three detected kisses make a kiss count of 3. */
  lemma EmotCountsExample(meanings: set<string>)
    ensures EmotCounts(meanings, Detection(true, ["Kiss", "Kiss", "Kiss"]))["Kiss"] == 3
  {
    EmotCountsProperties(meanings, Detection(true, ["Kiss", "Kiss", "Kiss"]));
    assert multiset(["Kiss", "Kiss", "Kiss"])["Kiss"] == 3;
  }

  /** `emoticons_stat`: start every meaning at 0, then count each detected meaning. */
  method EmoticonsStat(meanings: set<string>, d: Detection) returns (counts: map<string, int>)
    ensures counts == EmotCounts(meanings, d)
  {
    counts := ZeroCounts(meanings);
    if d.flag {
      for i := 0 to |d.mean|
        invariant counts == Tally(ZeroCounts(meanings), d.mean[..i])
      {
        assert d.mean[..i + 1][..i] == d.mean[..i];
        var item := d.mean[i];
        counts := counts[item := (if item in counts then counts[item] else 0) + 1];
      }
      assert d.mean[..|d.mean|] == d.mean;
    }
  }

  /** The counts as row entries, one column per meaning. */
  function EmotFeats(counts: map<string, int>): (m: map<Column, Feature>)
    ensures forall c :: c in m <==> c.Meaning? && c.meaning in counts
    ensures forall k :: k in counts ==> m[Meaning(k)] == Int(counts[k])
  {
    map c | c in (set k | k in counts :: Meaning(k)) :: Int(counts[c.meaning])
  }

  // -------------------------------------------------- typos_stat_and_fix

  /** A character `censorshop_pattern` (`[^\w\s'\-:]`) matches. */
  predicate CensorChar(c: char) {
    !IsWordChar(c) && !IsSpace(c) && c != '\'' && c != '-' && c != ':'
  }

  /** `censorshop_pattern.findall(t)` is non-empty. */
  predicate Censored(t: string) {
    exists i :: 0 <= i < |t| && CensorChar(t[i])
  }

  /** The string a token is judged by: its lower-cased lemma, or its text when it is an emoticon. */
  function JudgedForm(t: Token, emot: string -> Detection): string {
    if !emot(t.text).flag then Lower(t.lemmaText) else t.text
  }

  /** A token that counts as censored: not punctuation, its judged form not an emoticon, and holding a censor character. */
  predicate CensuredToken(t: Token, emot: string -> Detection) {
    !t.isPunct && !emot(JudgedForm(t, emot)).flag && Censored(JudgedForm(t, emot))
  }

  /** `censured`: the number of censored tokens. */
  function CensuredCount(tokens: seq<Token>, emot: string -> Detection): (n: nat)
    ensures n <= |tokens|
  {
    if tokens == [] then 0
    else CensuredCount(tokens[..|tokens| - 1], emot) + (if CensuredToken(tokens[|tokens| - 1], emot) then 1 else 0)
  }

  /** The count is zero exactly when no token is censored. */
  lemma {:induction false} CensuredNone(tokens: seq<Token>, emot: string -> Detection)
    ensures CensuredCount(tokens, emot) == 0 <==> forall i :: 0 <= i < |tokens| ==> !CensuredToken(tokens[i], emot)
  {
    if tokens != [] {
      var n := |tokens| - 1;
      CensuredNone(tokens[..n], emot);
      assert forall i :: 0 <= i < n ==> tokens[..n][i] == tokens[i];
    }
  }

  /** The `'`, `-` and `:` of words like "don't", "co-worker" are not censor characters; `*` and `!` are. */
  lemma CensorCharExamples()
    ensures !Censored("don't") && !Censored("co-worker")
    ensures Censored("f*ck") && Censored("exc!ted")
  {
    assert CensorChar("f*ck"[1]);
    assert CensorChar("exc!ted"[3]);
  }

  /** The three entries of `typos_stat_and_fix`. */
  function TyposFeats(doc: Doc, b: Backends, emot: string -> Detection): (m: map<Column, Feature>)
    ensures m.Keys == {TextCol, Censured, Compression}
    ensures m[Censured].Int? && 0 <= m[Censured].n <= |doc.tokens|
    ensures m[Compression].Int? && m[Compression].n >= 0
  {
    var corrected := TyposText(doc.tokens, b, emot);
    map[
      TextCol := Text(corrected),
      Censured := Int(CensuredCount(doc.tokens, emot)),
      Compression := Int(Max(0, |DocText(doc)| - |corrected|))]
  }

  /** `typos_stat_and_fix`: the corrected text, the censored-token count and how much shorter the text became. */
  method TyposStatAndFix(doc: Doc, checker: CachingSpellChecker, emot: string -> Detection)
    returns (feats: map<Column, Feature>)
    requires checker.Valid()
    modifies checker
    ensures checker.Valid()
    ensures feats == TyposFeats(doc, checker.backends, emot)
  {
    var censorship := CensuredCount(doc.tokens, emot);
    var corrected := TyposProcessor(doc.tokens, checker, emot);
    feats := map[
      TextCol := Text(corrected),
      Censured := Int(censorship),
      Compression := Int(Max(0, |DocText(doc)| - |corrected|))];
    TyposFeatsOf(doc, checker.backends, emot, corrected, censorship, feats);
  }

  lemma TyposFeatsOf(doc: Doc, b: Backends, emot: string -> Detection, corrected: string, censorship: nat, feats: map<Column, Feature>)
    requires corrected == TyposText(doc.tokens, b, emot) && censorship == CensuredCount(doc.tokens, emot)
    requires feats == map[
      TextCol := Text(corrected),
      Censured := Int(censorship),
      Compression := Int(Max(0, |DocText(doc)| - |corrected|))]
    ensures feats == TyposFeats(doc, b, emot)
  {
  }

  // ----------------------------------------------------------- transform

  /** The text after `replace_urls`. */
  function UrlFreeText(x: Extractor, doc: Doc): string {
    ReplaceEach(DocText(doc), StrippedUrls(x.findUrls(DocText(doc))))
  }

  /** The five dictionaries `transform` merges into `feats_row`, in merge order. */
  datatype Stats = Stats(
    base: map<Column, Feature>,
    sentence: map<Column, Feature>,
    urlsCounter: int,
    emotFeats: map<Column, Feature>,
    typos: map<Column, Feature>)

  /** The keys each statistic produces. */
  predicate WellKeyed(st: Stats) {
    && st.base.Keys == {Length, UpcaseRate, ExcMarkRate, QMarkRate, DotsRate, NewLinesRate}
    && st.sentence.Keys == {MedianSentenceLen, SentencesCount}
    && st.typos.Keys == {TextCol, Censured, Compression}
    && (forall c :: c in st.emotFeats ==> c.Meaning?)
  }

  /** The statistics of one document. */
  function DocStats(x: Extractor, b: Backends, doc: Doc): (st: Stats)
    ensures WellKeyed(st)
    ensures forall m :: m in x.meanings ==> Meaning(m) in st.emotFeats
  {
    var text := UrlFreeText(x, doc);
    EmotCountsProperties(x.meanings, x.emot(text));
    Stats(BaseStat(text, |SentenceLengths(doc.sents)|), SentencesStat(doc.sents),
          |x.findUrls(DocText(doc))|, EmotFeats(EmotCounts(x.meanings, x.emot(text))),
          TyposFeats(doc, b, x.emot))
  }

  /** The `feats_row` literal: a later dictionary wins on a shared key. */
  function Merge(st: Stats): map<Column, Feature> {
    st.base + st.sentence + map[UrlsCounter := Int(st.urlsCounter)] + st.emotFeats + st.typos
  }

  /** `[feats_row.get(name, 0) for name in feature_names_]`. */
  function Row(feats: map<Column, Feature>, names: seq<Column>): (row: seq<Feature>)
    ensures |row| == |names|
    ensures forall i :: 0 <= i < |names| && names[i] in feats ==> row[i] == feats[names[i]]
    ensures forall i :: 0 <= i < |names| && names[i] !in feats ==> row[i] == Int(0)
  {
    seq(|names|, i requires 0 <= i < |names| => if names[i] in feats then feats[names[i]] else Int(0))
  }

  /** The row of one document. */
  function DocRow(x: Extractor, b: Backends, doc: Doc): seq<Feature> {
    Row(Merge(DocStats(x, b, doc)), FeatureNames(x.meanings))
  }

  /** No two of the dictionaries share a key. */
  predicate Disjoint(st: Stats) {
    && st.base.Keys !! st.sentence.Keys && st.base.Keys !! st.emotFeats.Keys && st.base.Keys !! st.typos.Keys
    && st.sentence.Keys !! st.emotFeats.Keys && st.sentence.Keys !! st.typos.Keys && st.emotFeats.Keys !! st.typos.Keys
    && UrlsCounter !in st.base && UrlsCounter !in st.sentence && UrlsCounter !in st.emotFeats && UrlsCounter !in st.typos
  }

  /** The statistics `transform` computes never share a key. */
  lemma WellKeyedDisjoint(st: Stats)
    requires WellKeyed(st)
    ensures Disjoint(st)
  {
  }

  /** Without a shared key, the merge keeps every entry of each dictionary. */
  lemma MergeLookup(st: Stats)
    requires Disjoint(st)
    ensures var m := Merge(st);
      (forall c :: c in st.base ==> m[c] == st.base[c]) &&
      (forall c :: c in st.sentence ==> m[c] == st.sentence[c]) &&
      (forall c :: c in st.emotFeats ==> m[c] == st.emotFeats[c]) &&
      (forall c :: c in st.typos ==> m[c] == st.typos[c]) &&
      m[UrlsCounter] == Int(st.urlsCounter)
  {
  }

  /** The columns of a row: the fixed ones first, then emoticon columns the statistics hold. */
  predicate RowColumns(st: Stats, names: seq<Column>) {
    && |names| >= |FixedColumns| && names[..|FixedColumns|] == FixedColumns
    && forall i :: |FixedColumns| <= i < |names| ==> names[i] in st.emotFeats
  }

  /** The first cell holds the corrected text; the last two fixed cells the censored count and the compression. */
  lemma RowTyposCells(st: Stats, names: seq<Column>)
    requires WellKeyed(st) && RowColumns(st, names)
    ensures var row := Row(Merge(st), names);
      row[0] == st.typos[TextCol] && row[10] == st.typos[Censured] && row[11] == st.typos[Compression]
  {
    WellKeyedDisjoint(st);
    MergeLookup(st);
    assert names[0] == FixedColumns[0] && names[10] == FixedColumns[10] && names[11] == FixedColumns[11];
  }

  /** Cells 1 to 6 hold the base statistics. */
  lemma RowBaseCells(st: Stats, names: seq<Column>)
    requires WellKeyed(st) && RowColumns(st, names)
    ensures var row := Row(Merge(st), names);
      row[1] == st.base[Length] && row[2] == st.base[UpcaseRate] && row[3] == st.base[ExcMarkRate] &&
      row[4] == st.base[QMarkRate] && row[5] == st.base[DotsRate] && row[6] == st.base[NewLinesRate]
  {
    RowLengthCells(st, names);
    RowMarkCells(st, names);
  }

  /** Cells 1 to 3: the length, the upper-case rate and the `!` rate. */
  lemma RowLengthCells(st: Stats, names: seq<Column>)
    requires WellKeyed(st) && RowColumns(st, names)
    ensures var row := Row(Merge(st), names);
      row[1] == st.base[Length] && row[2] == st.base[UpcaseRate] && row[3] == st.base[ExcMarkRate]
  {
    WellKeyedDisjoint(st);
    MergeLookup(st);
    assert names[1] == FixedColumns[1] && names[2] == FixedColumns[2] && names[3] == FixedColumns[3];
  }

  /** Cells 4 to 6: the `?`, `...` and line-break rates. */
  lemma RowMarkCells(st: Stats, names: seq<Column>)
    requires WellKeyed(st) && RowColumns(st, names)
    ensures var row := Row(Merge(st), names);
      row[4] == st.base[QMarkRate] && row[5] == st.base[DotsRate] && row[6] == st.base[NewLinesRate]
  {
    WellKeyedDisjoint(st);
    MergeLookup(st);
    assert names[4] == FixedColumns[4] && names[5] == FixedColumns[5] && names[6] == FixedColumns[6];
  }

  /** Cells 7 to 9 hold the median and number of sentences and the URL count. */
  lemma RowSentenceCells(st: Stats, names: seq<Column>)
    requires WellKeyed(st) && RowColumns(st, names)
    ensures var row := Row(Merge(st), names);
      row[7] == st.sentence[MedianSentenceLen] && row[8] == st.sentence[SentencesCount] &&
      row[9] == Int(st.urlsCounter)
  {
    WellKeyedDisjoint(st);
    MergeLookup(st);
    assert names[7] == FixedColumns[7] && names[8] == FixedColumns[8] && names[9] == FixedColumns[9];
  }

  /** The cells after the fixed ones hold the emoticon counts, in column order. */
  lemma RowMeaningCells(st: Stats, names: seq<Column>)
    requires WellKeyed(st) && RowColumns(st, names)
    ensures var row := Row(Merge(st), names);
      forall i :: |FixedColumns| <= i < |row| ==> row[i] == st.emotFeats[names[i]]
  {
    WellKeyedDisjoint(st);
    MergeLookup(st);
  }

  /** Every column of the row is a key of the merged dictionary. */
  lemma MergeCovers(st: Stats, names: seq<Column>)
    requires WellKeyed(st) && RowColumns(st, names)
    ensures forall c :: c in names ==> c in Merge(st)
  {
    forall c | c in names ensures c in Merge(st) {
      var i :| 0 <= i < |names| && names[i] == c;
      if i < |FixedColumns| {
        assert c == FixedColumns[i];
      }
    }
  }

  /** Every feature name is a key of `feats_row`, so the default 0 is never used. */
  lemma RowComplete(x: Extractor, b: Backends, doc: Doc)
    ensures forall c :: c in FeatureNames(x.meanings) ==> c in Merge(DocStats(x, b, doc))
  {
    var st := DocStats(x, b, doc);
    var names := FeatureNames(x.meanings);
    assert RowColumns(st, names);
    MergeCovers(st, names);
  }

  /** The cells of a document's row are the entries of its statistics. */
  lemma DocRowCells(x: Extractor, b: Backends, doc: Doc)
    ensures var st := DocStats(x, b, doc);
      var row := DocRow(x, b, doc);
      var names := FeatureNames(x.meanings);
      |row| == |FixedColumns| + |x.meanings| &&
      row[0] == st.typos[TextCol] &&
      row[1] == st.base[Length] && row[2] == st.base[UpcaseRate] && row[3] == st.base[ExcMarkRate] &&
      row[4] == st.base[QMarkRate] && row[5] == st.base[DotsRate] && row[6] == st.base[NewLinesRate] &&
      row[7] == st.sentence[MedianSentenceLen] && row[8] == st.sentence[SentencesCount] &&
      row[9] == Int(st.urlsCounter) &&
      row[10] == st.typos[Censured] && row[11] == st.typos[Compression] &&
      forall i :: |FixedColumns| <= i < |row| ==> row[i] == st.emotFeats[names[i]]
  {
    var st := DocStats(x, b, doc);
    var names := FeatureNames(x.meanings);
    assert RowColumns(st, names);
    RowTyposCells(st, names);
    RowBaseCells(st, names);
    RowSentenceCells(st, names);
    RowMeaningCells(st, names);
  }

  /** The cells after the fixed ones hold the number of detections of each meaning in the URL-free text. */
  lemma RowEmotCells(x: Extractor, b: Backends, doc: Doc)
    ensures var row := DocRow(x, b, doc);
      var d := x.emot(UrlFreeText(x, doc));
      var names := FeatureNames(x.meanings);
      forall i :: |FixedColumns| <= i < |row| ==>
        row[i] == Int(if d.flag then multiset(d.mean)[names[i].meaning] else 0)
  {
    var d := x.emot(UrlFreeText(x, doc));
    EmotCountsProperties(x.meanings, d);
    DocRowCells(x, b, doc);
  }

  /**
   * `transform`: one row per document, in order, each with one cell per
   * feature name.
   */
  method Transform(x: Extractor, checker: CachingSpellChecker, docs: seq<Doc>) returns (rows: seq<seq<Feature>>)
    requires checker.Valid()
    modifies checker
    ensures checker.Valid()
    ensures |rows| == |docs|
    ensures forall i :: 0 <= i < |docs| ==> rows[i] == DocRow(x, checker.backends, docs[i])
  {
    var b := checker.backends;
    var docRow := d => DocRow(x, b, d);
    rows := [];
    for i := 0 to |docs|
      invariant checker.Valid() && checker.backends == b
      invariant rows == MapSeq(docs[..i], docRow)
    {
      var row := TransformDoc(x, checker, docs[i]);
      MapSeqSnoc(docs, docRow, i);
      rows := rows + [row];
    }
    assert docs[..|docs|] == docs;
    MapSeqIndex(docs, docRow);
  }

  /** The body of the loop of `transform`: the row of one document. */
  method TransformDoc(x: Extractor, checker: CachingSpellChecker, doc: Doc) returns (row: seq<Feature>)
    requires checker.Valid()
    modifies checker
    ensures checker.Valid()
    ensures row == DocRow(x, checker.backends, doc)
  {
    var text, urlsCounter := ReplaceUrls(DocText(doc), x.findUrls(DocText(doc)));
    var sentenceFeats := SentencesStat(doc.sents);
    assert sentenceFeats[SentencesCount].n == |SentenceLengths(doc.sents)|;
    var baseFeats := BaseStat(text, sentenceFeats[SentencesCount].n);
    var emotFeats := EmoticonsStat(x.meanings, x.emot(text));
    var typosFeats := TyposStatAndFix(doc, checker, x.emot);
    var featsRow := Merge(Stats(baseFeats, sentenceFeats, urlsCounter, EmotFeats(emotFeats), typosFeats));
    row := Row(featsRow, FeatureNames(x.meanings));
  }
}
