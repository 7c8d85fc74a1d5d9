# nlp_suicide_watch: a Dafny model of the text normalisation and feature engineering core

The system sorts short free-text messages into risk categories. Before a
classifier scores a message, the message goes through a chain of scikit-learn
transformers. This project models that chain and proves properties of it. The
transformers are:

- `fix_concatenated_words` puts a space after the punctuation that glues words
  together (`HELP!HELP` becomes `HELP! HELP`). It is in `SentenceSplitter.dfy`.
- `SpacyTokenizer` supplies the spaCy pipeline that every tokenizer shares. It
  adds a component that starts a sentence at every line break, and it makes
  each emoticon a single token. It is in `SpacyTokenizer.dfy`.
- `ExtraFeatures` turns a parsed document into one row of a fixed-width feature
  table. The row holds the corrected text, the length and character rates,
  sentence statistics, URL and censorship counts, the compression from typo
  fixing, and one count per emoticon meaning. It is in `FeaturesExtractor.dfy`.
- `typos_processor` lower-cases every token that is not an emoticon, collapses
  runs of three or more repeated characters and sends the remaining word tokens
  to the spell-checker.
  It is in `Typos.dfy`.
- `CachingSpellChecker` corrects each distinct word once. It consults Hunspell,
  then SymSpell, then Hunspell's suggestions, and memoises the result in a
  bounded cache. It is in `SpellChecker.dfy`.
- `FeatureSelector` ranks the columns with four methods. It keeps the top `k`
  of a rank-weighted vote across the methods. It is in `FeatureSelector.dfy`.
- `SbertVectorizer` cuts long texts into token-bounded chunks, embeds each
  chunk, and averages the embeddings weighted by chunk length. It is in
  `SbertVectorizer.dfy`.
- `fix_feature_names` strips the `step__` prefixes of column names. It is in
  `ColumnNamesFixer.dfy`.
- `PickleCompatible.__setstate__` fills in the constructor defaults that an
  older pickle lacks. It is in `PickleCompatible.dfy`.

The Python built-ins the code relies on are modelled in `Strings.dfy`. These
are `str.strip`, `str.split`, `str.replace`, `str.count`, `str.lower` and
`sorted` on a set of strings. `Wrappers.dfy` holds `Option` and `Result`.
`Sequences.dfy` holds a lemma about prefixes and `Distinct`, the
first-occurrence deduplication that stands for `set(...)` and
`list(set(...))`.

The external libraries are parameters of the model. Each is a function value
that the contracts quantify over:

- the spell-checking back-ends;
- the URL extractor;
- the `emot` emoticon detector;
- the regular-expression match list of `concatenated_pattern`;
- the sentence-transformer's tokenizer and encoder;
- the recursive character splitter;
- the four column rankers;
- `spacy.load`.

State that the source updates in place is modelled with classes:

- `CachingSpellChecker` and its cache;
- the shared `_nlp_model`;
- the selector's `_important_features`;
- a DataFrame's `columns`;
- an object's `__dict__`.

Loops are modelled as methods with loop invariants. Each method is proved
against a specification function, and the lemmas state the properties of that
function.

## Model

| member | source | states |
|---|---|---|
| SpellChecker.Resolve | src/util/caching_spell_checker.py:27-40 | A correctly spelt word is kept. Otherwise the result is the first SymSpell suggestion, else the first Hunspell suggestion, else the word itself. The result is always the word or one of its suggestions. |
| Sequences.Distinct | src/util/caching_spell_checker.py:21 | `set(words)` holds exactly the words of the input, each once, and is no longer than the input. |
| SpellChecker.DistinctCount | src/util/caching_spell_checker.py:21-22 | The number of words corrected is the number of distinct input words. |
| SpellChecker.CallCountExample | tests/test_util.py:23-30 | For `['HECK', 'BEEP', 'BUMP', 'HECK', 'BUMP']` the corrector is called 3 times. |
| SpellChecker.Evict | src/util/caching_spell_checker.py:26 | Evicting a cache entry keeps every remaining entry equal to its correction and frees one slot. |
| SpellChecker.Insert | src/util/caching_spell_checker.py:26 | Adding a freshly computed correction keeps the cache consistent and grows it by one. |
| SpellChecker.CachingSpellChecker.constructor | src/util/caching_spell_checker.py:7-18 | A new checker has an empty cache and has made no calls. |
| SpellChecker.CachingSpellChecker.CorrectWord | src/util/caching_spell_checker.py:26-40 | Returns `(word, correction)` even on a cache hit. The cache stays consistent and within 10000 entries, and afterwards holds the word. A hit leaves the cache unchanged. |
| SpellChecker.CachingSpellChecker.CorrectWords | src/util/caching_spell_checker.py:20-24 | One correction per input word, in input order, and equal words get equal corrections. The corrector is called once per distinct word. |
| Typos.RunEnd | src/util/typos_processor.py:5 | The greedy `\1{2,}` run ends at the first character that differs from the repeated one, ignoring case. |
| Typos.Collapse | src/util/typos_processor.py:5 | `repeat_pattern.sub(r'\1\1', s)` never lengthens the string. |
| Typos.CollapseNoRepeats | src/util/typos_processor.py:5 | After collapsing, no non-space character occurs three times in a row, ignoring case. |
| Typos.CollapseFixpoint | src/util/typos_processor.py:5 | A string with no such run is left unchanged. |
| Typos.CollapseIdempotent | src/util/typos_processor.py:16 | Collapsing twice is collapsing once. |
| Typos.CollapseAppendSpace | src/util/typos_processor.py:5 | No run crosses a whitespace character: the text before it and the text from it on collapse independently. |
| Typos.CollapseSpaces | src/util/typos_processor.py:5 | A whitespace character anywhere in a text is kept as it is, and the text on either side of it collapses on its own. |
| Typos.CollapseEllipsis | tests/test_util.py:35 | `ago...` becomes `ago..`. |
| Typos.FilterMapMembers | src/util/typos_processor.py:12-19 | The filtered list holds exactly the images of the kept elements. |
| Typos.MapSeqIndex | src/util/typos_processor.py:22 | Mapping is position by position. |
| Typos.TextsIndex | src/util/typos_processor.py:13-16 | Token `k`'s processed text is its own text for an emoticon, and its lower-cased, collapsed text otherwise. |
| Typos.CandidatesMembers | src/util/typos_processor.py:17-18 | A word goes to the spell-checker exactly when some token that is not an emoticon, a stop word or punctuation, and whose lemma is not blank, has it as processed text. |
| Typos.PrefixStep | src/util/typos_processor.py:12-19 | One loop step appends the token's processed text, and also appends it to the candidate list exactly when the token is a candidate. |
| Typos.CandidateForm | src/util/typos_processor.py:15-18 | Every candidate is the lower-cased, collapsed text of a qualifying token. |
| Typos.ZipMap | src/util/typos_processor.py:21 | The `dict(zip(...))` has exactly the candidate words as keys, and each value is the correction paired with that key. |
| Typos.ZipCorrections | src/util/typos_processor.py:20-21 | The mapper sends every candidate to its spell-checker correction and nothing else. |
| Typos.MappedTokens | src/util/typos_processor.py:22 | A token is replaced by its correction exactly when its processed text is a candidate, and is kept otherwise. |
| Typos.RebuiltTokens | src/util/typos_processor.py:22-24 | One output piece per token. |
| Typos.TyposText | src/util/typos_processor.py:25-26 | The result has no run of three equal non-space characters and is a fixed point of the collapse. |
| Typos.ProcessToken | src/util/typos_processor.py:13-19 | Computes the token's processed text and whether it is a spell-checker candidate. |
| Typos.ProcessTokens | src/util/typos_processor.py:12-19 | The loop builds exactly the processed texts and the candidate list. |
| Typos.TyposProcessor | src/util/typos_processor.py:9-26 | Returns the collapsed concatenation of each token's final text followed by its whitespace. The checker stays consistent. |
| FeaturesExtractor.FeatureNames | src/transformers/features_extractor.py:23-27 | The twelve fixed columns come first, in order. Every emoticon meaning follows exactly once, in strictly increasing string order, and nothing else. |
| FeaturesExtractor.StrippedUrls | src/transformers/features_extractor.py:37 | One URL per found URL, each a prefix of it that does not end in `.,!?:;`. |
| FeaturesExtractor.ReplaceUrls | src/transformers/features_extractor.py:35-42 | Counts every found URL, and replaces each stripped URL in turn by `[l]`. |
| FeaturesExtractor.ReplaceEachAbsent | src/transformers/features_extractor.py:39-41 | A text that contains none of the URLs is returned unchanged. |
| FeaturesExtractor.ReplaceOne | src/transformers/features_extractor.py:41 | Replacing one URL cuts the text at its occurrences and joins the pieces with `[l]`. No piece contains the URL, and joining them with the URL gives back the text. |
| FeaturesExtractor.SentenceLengths | src/transformers/features_extractor.py:45-46 | Only sentences with a positive stripped length are kept. |
| FeaturesExtractor.SentenceLengthsCount | src/transformers/features_extractor.py:45-46 | There are exactly as many kept lengths as sentences whose stripped text is non-empty. |
| FeaturesExtractor.SentenceLengthsComplete | src/transformers/features_extractor.py:45-46 | A sentence whose stripped text is non-empty has its stripped length among the kept lengths. |
| FeaturesExtractor.SentenceLengthsSound | src/transformers/features_extractor.py:45-46 | A kept length is the stripped length of some non-blank sentence. |
| FeaturesExtractor.SentenceLengthsMembers | src/transformers/features_extractor.py:45-46 | Every non-blank sentence's stripped length is kept, and every kept length is the stripped length of a non-blank sentence. |
| FeaturesExtractor.CountedSentence | src/transformers/features_extractor.py:45-46 | A sentence counts exactly when it has a non-whitespace character. |
| FeaturesExtractor.SortInts | src/transformers/features_extractor.py:48 | The sort used by the median: sorted, a permutation of its input, and of the same length. |
| FeaturesExtractor.InsertSortedSorted | src/transformers/features_extractor.py:48 | Inserting into a sorted sequence keeps it sorted. |
| FeaturesExtractor.SortedUnique | src/transformers/features_extractor.py:48 | Two sorted permutations of the same multiset are equal. |
| FeaturesExtractor.MedianPermutation | src/transformers/features_extractor.py:48 | The median depends only on the multiset of sentence lengths. |
| FeaturesExtractor.MedianBounds | src/transformers/features_extractor.py:48 | The median of non-empty lengths lies between their bounds. |
| FeaturesExtractor.MedianSingle | src/transformers/features_extractor.py:48 | The median of one length is that length. |
| FeaturesExtractor.SentencesStat | src/transformers/features_extractor.py:44-50 | Gives exactly the two sentence keys. The count is the number of sentences whose stripped text is non-empty, at most the number of sentences. The median is the median of those sentences' stripped lengths, and with no counted sentence it is `nan_to_num(nan) = 0`. |
| FeaturesExtractor.SentencesStatExample | tests/test_features_extractor.py:25 | `['Hello!!', 'My name is Jonas.']` gives median 12 and count 2. |
| FeaturesExtractor.SentencesStatEmpty | tests/test_features_extractor.py:26 | No sentences, or one blank sentence, give median 0 and count 0. |
| FeaturesExtractor.Rate | src/transformers/features_extractor.py:52-67 | A rate is the count divided by `max(1, sentences_count)`. It is non-negative. |
| FeaturesExtractor.BaseStat | src/transformers/features_extractor.py:52-68 | Gives exactly the six base keys. The length is `max(1, len(text))`. Each rate is its character count over `max(1, sentences_count)`. |
| FeaturesExtractor.TallyCounts | src/transformers/features_extractor.py:74 | `Counter.update` gives an entry to every item, and raises each entry by the item's multiplicity. |
| FeaturesExtractor.EmotCountsProperties | src/transformers/features_extractor.py:70-75 | Every known meaning and every detected one has an entry. Each entry is its number of detections, or 0 when nothing was detected. |
| FeaturesExtractor.EmotCountsExample | tests/test_features_extractor.py:72-74 | Three detected kisses count 3. |
| FeaturesExtractor.EmoticonsStat | src/transformers/features_extractor.py:70-75 | Computes that table. |
| FeaturesExtractor.EmotFeats | src/transformers/features_extractor.py:116 | Each counted meaning becomes the column of that name with its count, and nothing else becomes a column. |
| FeaturesExtractor.CensuredCount | src/transformers/features_extractor.py:87 | At most one per token. |
| FeaturesExtractor.CensuredNone | src/transformers/features_extractor.py:78-87 | The count is 0 exactly when no non-punctuation token has a censor character in its judged form. The judged form is the lower-cased lemma, or the text for an emoticon. |
| FeaturesExtractor.CensorCharExamples | src/transformers/features_extractor.py:18 | `'`, `-` and `:` are not censor characters, while `*` and `!` inside a word are. |
| FeaturesExtractor.TyposFeats | src/transformers/features_extractor.py:89-93 | Gives exactly the text, censored and compression keys, with a bounded censored count and a non-negative compression. |
| FeaturesExtractor.TyposStatAndFix | src/transformers/features_extractor.py:77-93 | Computes those features through the caching spell-checker, keeping it consistent. |
| FeaturesExtractor.AppendMeanings | src/transformers/features_extractor.py:27 | Appending the sorted meanings to the fixed columns gives the column layout described above. |
| FeaturesExtractor.DocStats | src/transformers/features_extractor.py:105-110 | Each statistic has its fixed keys, and every known meaning has a column. |
| FeaturesExtractor.WellKeyedDisjoint | src/transformers/features_extractor.py:112-118 | The five dictionaries that are merged never share a key. |
| FeaturesExtractor.MergeLookup | src/transformers/features_extractor.py:112-118 | So each key of the merged row holds the value of the one statistic that produced it. |
| FeaturesExtractor.Row | src/transformers/features_extractor.py:119 | One cell per column name: the feature's value, or 0 when the row lacks it. |
| FeaturesExtractor.RowTyposCells | src/transformers/features_extractor.py:112-119 | Cell 0 holds the corrected text. Cells 10 and 11 hold the censored count and the compression. |
| FeaturesExtractor.RowBaseCells | src/transformers/features_extractor.py:112-119 | Cells 1 to 6 hold the length and the five rates. |
| FeaturesExtractor.RowLengthCells | src/transformers/features_extractor.py:112-119 | Cells 1 to 3 hold the length and the upper-case and `!` rates. |
| FeaturesExtractor.RowMarkCells | src/transformers/features_extractor.py:112-119 | Cells 4 to 6 hold the `?`, `.` and newline rates. |
| FeaturesExtractor.RowSentenceCells | src/transformers/features_extractor.py:112-119 | Cells 7 to 9 hold the median sentence length, the sentence count and the URL count. |
| FeaturesExtractor.RowMeaningCells | src/transformers/features_extractor.py:112-119 | Every cell after the fixed ones holds its meaning's emoticon count. |
| FeaturesExtractor.MergeCovers | src/transformers/features_extractor.py:112-119 | Every column is a key of the merged row, so `get(name, 0)` never falls back to 0. |
| FeaturesExtractor.RowComplete | src/transformers/features_extractor.py:105-119 | Every name in `feature_names_` is a key of every document's merged row, so no cell falls back to 0. |
| FeaturesExtractor.DocRowCells | src/transformers/features_extractor.py:101-120 | A document's row has twelve cells plus one per emoticon meaning, laid out as above. |
| FeaturesExtractor.RowEmotCells | src/transformers/features_extractor.py:106-119 | Each meaning cell counts that meaning's detections in the URL-free text, or is 0 when nothing was detected. |
| FeaturesExtractor.Transform | src/transformers/features_extractor.py:95-124 | One row per document, in order, each that document's row. |
| FeaturesExtractor.TransformDoc | src/transformers/features_extractor.py:105-120 | One loop iteration computes the document's row. |
| FeatureSelector.Analysis | src/transformers/feature_selector.py:74-82 | There is at most one result per method. |
| FeatureSelector.AnalysisAppend | src/transformers/feature_selector.py:75-80 | The results of two method lists, one after the other, are the results of their concatenation. |
| FeatureSelector.AnalysisSkipsFailure | src/transformers/feature_selector.py:76-80 | A method that raises leaves no entry and does not stop the rest. |
| FeatureSelector.AnalysisKeepsSuccess | src/transformers/feature_selector.py:76-77 | A method that succeeds contributes its named ranking, in method order. |
| FeatureSelector.ComprehensiveFeatureAnalysis | src/transformers/feature_selector.py:67-82 | The loop over the four methods computes those results. |
| FeatureSelector.Take | src/transformers/feature_selector.py:87-94 | Python's `s[:k]` is a prefix with the length Python gives for every integer `k`, negative ones included. |
| FeatureSelector.WeightBounds | src/transformers/feature_selector.py:90 | Within the top `k`, a vote lies in (0, 1], and rank 0 votes 1. |
| FeatureSelector.WeightDecreasing | src/transformers/feature_selector.py:90 | A better rank votes strictly more. |
| FeatureSelector.RankBallots | src/transformers/feature_selector.py:87-90 | One ballot per entry in the top `k`. |
| FeatureSelector.RankVotesIndex | src/transformers/feature_selector.py:87-90 | The ballot at rank `i` is the feature there with weight `(k - i) / k`. |
| FeatureSelector.SumForAppend | src/transformers/feature_selector.py:86-90 | A feature's total over two ballot lists is the sum of its totals. |
| FeatureSelector.RankVotesAtMostOne | src/transformers/feature_selector.py:87-90 | In one ranking without repeats, a feature collects between 0 and 1. |
| FeatureSelector.TakeDistinct | src/transformers/feature_selector.py:87 | The top `k` of a ranking without repeats has no repeats and at most `k` entries. |
| FeatureSelector.VoteAtMostMethods | src/transformers/feature_selector.py:86-90 | A feature's total vote lies between 0 and the number of methods. |
| FeatureSelector.IndexOf | src/transformers/feature_selector.py:88 | Finds the feature's entry in the vote table, or reports it absent. |
| FeatureSelector.AddVoteKeys | src/transformers/feature_selector.py:88-90 | A vote keeps the table's features distinct, and adds exactly the voted feature. |
| FeatureSelector.AddVoteValue | src/transformers/feature_selector.py:88-90 | A vote raises the voted feature's total by the weight and leaves every other total alone. |
| FeatureSelector.AccumulateDistinct | src/transformers/feature_selector.py:85-90 | The vote table has each feature at most once. |
| FeatureSelector.AccumulateMentions | src/transformers/feature_selector.py:85-90 | Its features are exactly the voted ones. |
| FeatureSelector.AccumulateValue | src/transformers/feature_selector.py:85-90 | Each feature's entry is the sum of its ballots. |
| FeatureSelector.InsertByVote | src/transformers/feature_selector.py:92 | Insertion adds exactly the one entry. |
| FeatureSelector.InsertByVoteSorted | src/transformers/feature_selector.py:92 | Insertion keeps the votes non-increasing. |
| FeatureSelector.SortByVote | src/transformers/feature_selector.py:92 | `sorted(..., reverse=True)` is a permutation. |
| FeatureSelector.SortByVoteSorted | src/transformers/feature_selector.py:92 | The sorted votes are non-increasing. |
| FeatureSelector.InsertByVoteTies | src/transformers/feature_selector.py:92 | Insertion puts the entry before the older entries with the same vote. |
| FeatureSelector.SortByVoteStable | src/transformers/feature_selector.py:92 | Stability: entries with equal votes keep their table order, as Python's `sorted` does with `reverse=True`. |
| FeatureSelector.ConsensusSpec | src/transformers/feature_selector.py:84-94 | The consensus has at most `k` entries, all in the vote table. Each feature appears once with its total vote, in non-increasing order, with tied features in the order they were first voted for. |
| FeatureSelector.ConsensusTopK | src/transformers/feature_selector.py:92-94 | The consensus keeps the top `k` of the vote table: `min(k, n)` entries for `n` voted features, and no feature left out has a larger vote than one kept. |
| FeatureSelector.PrefixEntries | src/transformers/feature_selector.py:92-94 | Each entry of the sliced sort is a table entry holding its feature's total. |
| FeatureSelector.PrefixDistinct | src/transformers/feature_selector.py:92-94 | The sliced sort repeats no feature. |
| FeatureSelector.CastVote | src/transformers/feature_selector.py:88-90 | Lines 88-90 are one vote: a new feature enters at 0, then gains the weight. |
| FeatureSelector.CompareMethodsConsensus | src/transformers/feature_selector.py:84-94 | The nested loops, the sort and the slice compute the consensus. |
| FeatureSelector.FeatureNamesOf | src/transformers/feature_selector.py:113 | The consensus features, in order. |
| FeatureSelector.MissingColumns | src/transformers/feature_selector.py:119 | The requested columns the frame lacks. |
| FeatureSelector.Project | src/transformers/feature_selector.py:119 | `X[cols]` succeeds exactly when every column exists, with those columns and their unchanged data. Otherwise it raises `KeyError` for a missing one. |
| FeatureSelector.Selector.constructor | src/transformers/feature_selector.py:97-99 | Stores `top_k` and no features. |
| FeatureSelector.Selector.Fit | src/transformers/feature_selector.py:104-116 | A non-iterable `y` raises `ValueError` and changes nothing. Otherwise the stored features are exactly the consensus features, each once. |
| FeatureSelector.Selector.GetFeatureNamesOut | src/transformers/feature_selector.py:101-102 | Before `fit`, `None.copy()` raises `AttributeError`. After `fit`, returns the stored features. |
| FeatureSelector.Selector.Transform | src/transformers/feature_selector.py:118-119 | Before `fit`, `X[None]` raises `KeyError`. After `fit`, projects the frame onto the stored features. |
| SbertVectorizer.Overlap | src/transformers/sbert_vectorizer.py:19 | `int(size * 0.2)` truncates a fifth toward zero, for negative sizes too. |
| SbertVectorizer.NewVectorizer | src/transformers/sbert_vectorizer.py:13-26 | The chunk size is the model's maximum less 50, with that overlap. |
| SbertVectorizer.MpnetSizes | tests/test_transformers.py:72 | For `all-mpnet-base-v2` (384 tokens) the chunk size is 334 and the overlap 66, and `384 > 334 > 1`. |
| SbertVectorizer.SpaceRunEnd | src/transformers/sbert_vectorizer.py:39 | `\s+` matches the whole whitespace run. |
| SbertVectorizer.FirstBreak | src/transformers/sbert_vectorizer.py:39 | Finds the leftmost position where `(?<=[.!?])\s+` matches. |
| SbertVectorizer.SegmentsGlue | src/transformers/sbert_vectorizer.py:39 | The pieces of `re.split`, each followed by the run removed after it, give back the text. |
| SbertVectorizer.SegmentsSeparators | src/transformers/sbert_vectorizer.py:39 | Every removed run is non-empty whitespace following `.`, `!` or `?`. |
| SbertVectorizer.SegmentsNoBreak | src/transformers/sbert_vectorizer.py:39 | No piece contains a further split point. |
| SbertVectorizer.SplitSentences | src/transformers/sbert_vectorizer.py:39 | `re.split` returns at least one piece. |
| SbertVectorizer.SplitSentencesNoBreak | src/transformers/sbert_vectorizer.py:39 | A text without a terminator followed by whitespace is one sentence. |
| SbertVectorizer.SplitEachMembers | src/transformers/sbert_vectorizer.py:43-44 | The chunks are exactly the pieces of the splitter's output for the sentences. |
| SbertVectorizer.ChunksShort | src/transformers/sbert_vectorizer.py:38-41 | A text within the token limit is its own single chunk. |
| SbertVectorizer.ChunkTextByTokens | src/transformers/sbert_vectorizer.py:31-51 | The loop computes the chunks, and a short text gives `[text]`. |
| SbertVectorizer.Weights | src/transformers/sbert_vectorizer.py:54-55 | One non-negative weight per chunk. |
| SbertVectorizer.WeightsSumToOne | src/transformers/sbert_vectorizer.py:55 | The length weights sum to 1. |
| SbertVectorizer.Agg | src/transformers/sbert_vectorizer.py:53-56 | The result has the embedding dimension. |
| SbertVectorizer.WeightedSumLower | src/transformers/sbert_vectorizer.py:56 | A weighted sum is at least the lower bound times the total weight. |
| SbertVectorizer.WeightedSumUpper | src/transformers/sbert_vectorizer.py:56 | A weighted sum is at most the upper bound times the total weight. |
| SbertVectorizer.AggBounds | src/transformers/sbert_vectorizer.py:53-56 | Each coordinate of the aggregate lies between the chunks' smallest and largest value in that coordinate. |
| SbertVectorizer.AggSingle | src/transformers/sbert_vectorizer.py:53-56 | One non-empty chunk aggregates to its own embedding. |
| SbertVectorizer.AggTwo | src/transformers/sbert_vectorizer.py:53-56 | Two chunks aggregate to the length-weighted mean of their embeddings. |
| SbertVectorizer.Zeros | src/transformers/sbert_vectorizer.py:69-70 | `np.zeros(dim)`. |
| SbertVectorizer.Embeddings | src/transformers/sbert_vectorizer.py:73-79 | One embedding per chunk, each the encoder's vector for it. |
| SbertVectorizer.EncodeAsWritten | src/transformers/sbert_vectorizer.py:66-81 | A text's vector as the code computes it. It is undefined (NaN) exactly when there are chunks and their total length is 0. |
| SbertVectorizer.EmptyTextAsWritten | src/transformers/sbert_vectorizer.py:36-41 | The empty text becomes the single chunk `""`, and its weights are 0/0. |
| SbertVectorizer.EncodeText | src/transformers/sbert_vectorizer.py:66-81 | Agrees with the code wherever the code's vector is defined, and gives the zero vector for text without characters. |
| SbertVectorizer.EmptyTextZero | src/transformers/sbert_vectorizer.py:68-71 | The empty text is encoded as the zero vector. |
| SbertVectorizer.Transform | src/transformers/sbert_vectorizer.py:61-83 | An empty list of texts raises `np.vstack`'s ValueError, and only it fails. Any other list succeeds with one vector of the embedding dimension per text, in order, each the corrected `EncodeText` of the text (see "## Left out" and "## Findings"). |
| SentenceSplitter.SepRunEnd | src/transformers/sentece_splitter.py:4 | `[^\w\s]+` matches the whole separator run. |
| SentenceSplitter.Runs | src/transformers/sentece_splitter.py:12 | `findall` gives non-empty runs of separator characters. |
| SentenceSplitter.InsertByLength | src/transformers/sentece_splitter.py:14 | Insertion adds the one separator. |
| SentenceSplitter.InsertByLengthSorted | src/transformers/sentece_splitter.py:14 | Insertion keeps the list longest first. |
| SentenceSplitter.ByLength | src/transformers/sentece_splitter.py:14 | The sort keeps the same separators. |
| SentenceSplitter.ByLengthSorted | src/transformers/sentece_splitter.py:14 | The sort puts the longest separators first. |
| SentenceSplitter.Separators | src/transformers/sentece_splitter.py:12-14 | The alternatives are exactly the separator runs of the match. |
| SentenceSplitter.FirstPrefix | src/transformers/sentece_splitter.py:15-16 | The regex alternation tries its branches in order and takes the first that matches here. |
| SentenceSplitter.FirstPrefixLongest | src/transformers/sentece_splitter.py:14-16 | With longest-first order the chosen branch is at least as long as any matching one. |
| SentenceSplitter.FirstPrefixIsRun | src/transformers/sentece_splitter.py:12-16 | At a separator run, the chosen branch is the whole run. |
| SentenceSplitter.SubAlternativesInsertsSpaces | src/transformers/sentece_splitter.py:12-16 | When every run is an alternative, `re.sub` puts one space after each separator run. |
| SentenceSplitter.FixSubSpec | src/transformers/sentece_splitter.py:11-16 | So the fixed match is the match with a space after each of its separator runs. |
| SentenceSplitter.InsertSpacesNonSpace | src/transformers/sentece_splitter.py:16 | Inserting spaces keeps the non-whitespace characters, in order. |
| SentenceSplitter.InsertSpacesKeepsRuns | src/transformers/sentece_splitter.py:16 | Inserting spaces leaves the separator runs as they were. |
| SentenceSplitter.FixSubNonSpace | src/transformers/sentece_splitter.py:11-16 | Fixing a match only adds whitespace, even for a match without separators. |
| SentenceSplitter.Reversed | src/transformers/sentece_splitter.py:10 | `reversed(matches)`. |
| SentenceSplitter.ApplyAllSnoc | src/transformers/sentece_splitter.py:10-17 | Each iteration replaces one match by its fix in the current text. |
| SentenceSplitter.ApplyAllNonSpace | src/transformers/sentece_splitter.py:10-17 | The replacements keep the non-whitespace characters of the text, in order. |
| SentenceSplitter.FixTextNonSpace | src/transformers/sentece_splitter.py:8-18 | The result differs from the input only in whitespace. |
| SentenceSplitter.FixTextTrimmed | src/transformers/sentece_splitter.py:18 | The result has no whitespace at either end. |
| SentenceSplitter.FixTextNoMatch | src/transformers/sentece_splitter.py:9-18 | A text with no match is only stripped. |
| SentenceSplitter.FixConcatenatedWords | src/transformers/sentece_splitter.py:6-19 | One output per text, in order, each its fixed and stripped text. |
| SentenceSplitter.GluedPair | src/transformers/sentece_splitter.py:11-16 | A word, a separator run and a word get a space after the run. |
| SentenceSplitter.GluedTrailing | src/transformers/sentece_splitter.py:11-16 | With a trailing run, both runs get a space. |
| SentenceSplitter.GluedFour | src/transformers/sentece_splitter.py:11-16 | Four words joined by three runs get a space after each run. |
| SentenceSplitter.HelpExample | tests/test_transformers.py:15 | The match `HELP!HELP` of the first case becomes `HELP! HELP`. |
| SentenceSplitter.SlashExample | tests/test_transformers.py:16 | The match `TEST//TEST//` of the second case becomes `TEST// TEST// `. |
| SentenceSplitter.BarsExample | tests/test_transformers.py:17 | The third case, four `BEEP`s joined by runs of four, three and two bars, gets a space after each run of bars. |
| SpacyTokenizer.MarkNewlines | src/transformers/spacy_tokenizer.py:19-23 | Keeps the number of tokens. |
| SpacyTokenizer.MarkNewlinesSpec | src/transformers/spacy_tokenizer.py:19-23 | Every token after the first whose text has a line break becomes a sentence start. Every other token, the first included, is unchanged, and no text changes. |
| SpacyTokenizer.MarkNewlinesIdempotent | src/transformers/spacy_tokenizer.py:19-23 | Running the component twice marks nothing more. |
| SpacyTokenizer.MarkNewlinesStarts | src/transformers/spacy_tokenizer.py:20-22 | The sentence starts afterwards are the old ones plus the line-starting tokens. |
| SpacyTokenizer.NewlineSentencizer | src/transformers/spacy_tokenizer.py:18-23 | Updates the document in place as described, and returns the same document. |
| SpacyTokenizer.FirstIndex | src/transformers/spacy_tokenizer.py:29 | The first position of the anchor component, or absent. |
| SpacyTokenizer.AddPipeBefore | src/transformers/spacy_tokenizer.py:29 | `add_pipe(before="parser")` succeeds exactly when a parser is present, and inserts directly before the first parser. |
| SpacyTokenizer.AddSpecialCases | src/transformers/spacy_tokenizer.py:30-31 | Every emoticon becomes a single token of its own text, and other special cases stay. |
| SpacyTokenizer.Built | src/transformers/spacy_tokenizer.py:27-31 | Building succeeds exactly when the loaded pipeline has a parser. |
| SpacyTokenizer.BuiltSpec | src/transformers/spacy_tokenizer.py:27-31 | The sentencizer runs directly before a parser and adds exactly one component. Emoticons are single tokens, and everything else stays as loaded. |
| SpacyTokenizer.ModelCache.constructor | src/transformers/spacy_tokenizer.py:12 | The cache starts unset. |
| SpacyTokenizer.ModelCache.GetNlpModel | src/transformers/spacy_tokenizer.py:25-32 | A set model is returned unchanged. Otherwise the pipeline is built and stored. If `add_pipe` fails, the attribute keeps the loaded pipeline, which is stored first. |
| SpacyTokenizer.SharedModel | src/transformers/spacy_tokenizer.py:14-15 | Once built, every later tokenizer gets the very same pipeline, whatever `spacy.load` would return. |
| ColumnNamesFixer.SplitLastEnds | src/transformers/column_names_fixer.py:3 | The last part of a split ends the string. |
| ColumnNamesFixer.SplitLastAfterSep | src/transformers/column_names_fixer.py:3 | The last of several parts follows a separator. |
| ColumnNamesFixer.LastSegmentSpec | src/transformers/column_names_fixer.py:3 | The new name is a suffix of the old one without `__`. It follows a `__` when the old name has one, and is the old name otherwise. |
| ColumnNamesFixer.LastSegmentIdempotent | src/transformers/column_names_fixer.py:3 | Fixing a fixed name changes nothing. |
| ColumnNamesFixer.FixColumns | src/transformers/column_names_fixer.py:3 | One name per column. |
| ColumnNamesFixer.FixColumnsSpec | src/transformers/column_names_fixer.py:3 | Each new name is a `__`-free suffix of its old name, in order, and fixing twice is fixing once. |
| ColumnNamesFixer.Table.constructor | src/transformers/column_names_fixer.py:2 | A table with or without a `columns` attribute. |
| ColumnNamesFixer.FixFeatureNames | src/transformers/column_names_fixer.py:1-4 | Renames the columns in place when there are any, leaves other objects alone, and returns the same object. |
| PickleCompatible.FillDefaultsSpec | src/util/pickle_compatible.py:7-11 | Defaults are added only for missing parameters that have one. Every added value is the default of a parameter of that name, and no existing attribute changes. |
| PickleCompatible.FillDefaultsValue | src/util/pickle_compatible.py:7-11 | With distinct parameter names, each such parameter holds exactly its default. |
| PickleCompatible.RestoredSpec | src/util/pickle_compatible.py:4-11 | The state's values win, other attributes are kept, and the only new keys are defaulted parameters. `self` is never added. |
| PickleCompatible.Restorable.constructor | src/util/pickle_compatible.py:3 | An object with the given `__dict__`. |
| PickleCompatible.Restorable.SetState | src/util/pickle_compatible.py:4-11 | The in-place update and the loop leave exactly the restored attributes. |
| Strings.StripProperties | src/transformers/sentece_splitter.py:18 | `str.strip()` gives a slice with no whitespace at either end, and keeps every other character in order. |
| Strings.RStripChars | src/transformers/features_extractor.py:37 | `rstrip(chars)` gives the longest prefix not ending in `chars`. Only those characters are removed. |
| Strings.JoinSplit | src/transformers/column_names_fixer.py:3 | Joining a split with its separator gives back the string. |
| Strings.SplitPartsClean | src/transformers/column_names_fixer.py:3 | No part of a split contains the separator. |
| Strings.ReplaceAbsent | src/transformers/features_extractor.py:41 | Replacing a string that does not occur changes nothing. |
| Strings.ReplaceKeepsNonSpace | src/transformers/sentece_splitter.py:17 | A replacement that differs only in whitespace keeps the text's non-whitespace characters. |
| Strings.SortedSet | src/transformers/features_extractor.py:27 | `sorted(set)` lists every element once, in strictly increasing string order. |
| Strings.Lower | src/util/typos_processor.py:16 | Lower-casing acts character by character. |

## Left out

- Only ASCII is modelled for `\w`, `\s` (Python's whitespace set), `str.isupper` and `str.lower`, in `Strings.IsWordChar`, `IsSpace`, `IsUpper` and `LowerChar`. Unicode case tables and Unicode word characters are not modelled.
- The regular-expression engine is not modelled for `concatenated_pattern` (`sentece_splitter.py:3`). Which substrings it matches is an input, `finditer`. The per-match substitution at lines 12-16 is modelled in full.
- Python's set iteration order is not modelled. It matters in `set(words)` (`caching_spell_checker.py:21`) and `list(set(...))` (`feature_selector.py:115`). The model enumerates each element once, in order of first occurrence, and no contract depends on that order.
- SpellChecker.CachingSpellChecker.CorrectWord: evicts an arbitrary entry when the cache is full, not the least recently used one. `functools.lru_cache` also keys its cache on `self` and shares one 10000-entry cache across all checkers. The model keeps one cache per checker. The contract states only that cached corrections are always right and the cache stays within bounds.
- Hunspell, SymSpell, URLExtract, `emot`, spaCy's tokenizer, tagger and parser, `spacy.load`, `EMOTICONS_EMO`, the sentence-transformer and langchain's `RecursiveCharacterTextSplitter` are external libraries. Each is a function or value parameter, and the contracts hold for all of them.
- The four column rankers of `feature_selector.py:9-65` are left out (mutual information, random forest, correlation, `SelectKBest`). Each is a parameter that either returns a ranking or raises. The `print` of the error at line 79 and the suppression of warnings are left out.
- The check `isinstance(y, Iterable)` at `feature_selector.py:105` is modelled by wrapping `y` in an `Option`. `None` is a non-iterable `y`.
- Floating point is modelled as exact reals: rates, votes, weights, the median and the embeddings. Rounding, and the NaN that 0/0 gives, are not modelled.
- SbertVectorizer.Overlap: `int(size * 0.2)` is modelled as truncating an exact fifth. For chunk sizes where `size * 0.2` rounds across an integer in floating point, the two can differ. 334 is not such a size.
- SbertVectorizer.Transform: guards the zero vector with `not chunks or total chunk length == 0` rather than the code's `if not chunks`, so a text whose chunks have no characters (`""`) gets the zero vector where the code produces a NaN vector. The as-written behaviour is `EncodeAsWritten`.
- SbertVectorizer.AggTwo: states the aggregate multiplied by the total length rather than divided, to keep the real arithmetic linear.
- FeaturesExtractor.FeatureNames: an emoticon meaning that is spelt like a fixed column name stays a separate column in the model. In the source, the dictionary merge at lines 112-118 would fold the two together. No value of `EMOTICONS_EMO` is such a name.
- The per-document `emot_cache` in `typos_stat_and_fix` (`features_extractor.py:80-84`) is left out. It only memoises a function, and the model calls the detector directly.
- The dead `repeat_pattern` of `ExtraFeatures` (`features_extractor.py:17`) is never used, so it is not modelled.
- Logging, progress milestones and `gc.collect` are left out. So are GPU placement (`GPUManager`), `hf_logging` verbosity and the tokenizer's deprecation-warning bookkeeping.
- Building `pd.DataFrame` and `np.vstack` is left out. A table is a sequence of rows, and a frame is its columns and column data. The ValueError `np.vstack` raises for an empty list is modelled.
- `SpacyTokenizer.__init__`, `fit` and `transform` are left out. They only fetch the shared model and run spaCy's `nlp.pipe`. Errors that `add_pipe` raises for a duplicate component name are not modelled. Only the missing-anchor error is.
- `fit` and `get_feature_names_out` of `ExtraFeatures` and `SbertVectorizer` are left out. They return `self` or a stored list, with no logic.
- The spaCy sentence counts at `tests/test_transformers.py:29-31` depend on spaCy's parser, so they are not proved.
- The SBERT chunk counts at `tests/test_transformers.py:62-64` and the vector length at line 79 depend on the real tokenizer and splitter. Only the 334/66 sizes at line 72 are proved.
- The selected columns at `tests/test_transformers.py:43-55` depend on the real rankers, so they are not proved.
- The `typos_processor` outputs at `tests/test_util.py:35-36` depend on spaCy's lemmas and on the dictionaries. Only the collapse of `ago...` is proved.
- The spelling corrections at `tests/test_util.py:12` depend on the dictionaries, so they are not proved.
- The splitter cases at `tests/test_transformers.py:15-16` are proved at the level of the match that `concatenated_pattern` finds. The whole-text results also depend on the regex engine. The `Don't do that` case at line 18 has no match, and `FixTextNoMatch` covers it given that.
- The scripts, pipelines, training code and apps of the repository are outside this model. So are `PathHelper` and `GPUManager`.

## Findings

| source | as written | input that shows it | evidently intended | confidence | as-written member | corrected member |
|---|---|---|---|---|---|---|
| src/transformers/sbert_vectorizer.py:36-71 | A short text, the empty one included, is returned as its own single chunk, so the chunk list is never empty and the `if not chunks` guard never fires. For `""` the chunk lengths sum to 0, and `_agg_embeddings` divides 0 by 0, giving a NaN vector. | `transform([""])` | The zero vector of the embedding dimension, as the guard at lines 68-71 intends for a text without content. | medium, not executed | SbertVectorizer.EmptyTextAsWritten (with SbertVectorizer.EncodeAsWritten) | SbertVectorizer.EmptyTextZero (with SbertVectorizer.EncodeText, which SbertVectorizer.Transform uses) |
