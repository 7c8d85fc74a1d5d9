/**
 * `src/transformers/sbert_vectorizer.py`: document embeddings from
 * sentence embeddings. The sentence-transformer (its tokenizer, its
 * `encode` and its embedding dimension) and langchain's recursive splitter
 * are oracles; what is modelled is the chunk-size constants, the chunking
 * control around the splitter, the length-weighted mean of the chunk
 * embeddings, and the per-text loop of `transform`.
 */
module SbertVectorizer {
  import opened Wrappers
  import opened Strings

  /** The sentence-transformer: `max_seq_length`, token counts, per-chunk embeddings and their dimension. */
  datatype SentenceModel = SentenceModel(
    maxSeqLength: int,
    tokenLength: string -> nat,      // len(tokenizer.encode(text, add_special_tokens=True))
    encode: string -> seq<real>,     // the embedding of one chunk
    dim: nat)                        // get_sentence_embedding_dimension()

  /** The splitter, configured with `chunk_size` and `chunk_overlap`: `split_text`. */
  type Splitter = (int, int, string) -> seq<string>

  datatype Vectorizer = Vectorizer(model: SentenceModel, chunkTokenSize: int, overlap: int, splitter: Splitter)

  /** Every embedding the model returns has the model's dimension. */
  ghost predicate Dimensioned(m: SentenceModel) {
    forall s :: |m.encode(s)| == m.dim
  }

  /** `int(size * 0.2)`: a fifth of the size, truncated toward zero. */
  function Overlap(size: int): (r: int)
    ensures size >= 0 ==> 0 <= 5 * r <= size < 5 * r + 5
    ensures size < 0 ==> size < 5 * r + 5 && 5 * r - 5 < size && r <= 0 && size <= 5 * r
  {
    if size >= 0 then size / 5 else -((-size) / 5)
  }

  /** `__init__`: chunks are 50 tokens shorter than the model's maximum, and overlap by 20%. */
  function NewVectorizer(model: SentenceModel, splitter: Splitter): (v: Vectorizer)
    ensures v.model == model && v.splitter == splitter
    ensures v.chunkTokenSize + 50 == model.maxSeqLength
    ensures v.overlap == Overlap(v.chunkTokenSize)
  {
    var size := model.maxSeqLength - 50;
    Vectorizer(model, size, Overlap(size), splitter)
  }

  /** With the 384-token maximum of `all-mpnet-base-v2`, chunks have 334 tokens and overlap by 66. */
  lemma MpnetSizes(model: SentenceModel, splitter: Splitter)
    requires model.maxSeqLength == 384
    ensures var v := NewVectorizer(model, splitter);
      v.chunkTokenSize == 334 && v.overlap == 66 && model.maxSeqLength > v.chunkTokenSize > 1
  {
  }

  // ---------------------------------------------- re.split(r'(?<=[.!?])\s+', text)

  const Terminators: set<char> := {'.', '!', '?'}

  /** A whitespace character right after a sentence terminator: where a separator run starts. */
  predicate BreakAt(text: string, i: int) {
    1 <= i < |text| && text[i - 1] in Terminators && IsSpace(text[i])
  }

  /** End of the whitespace run starting at `i`. */
  function SpaceRunEnd(text: string, i: nat): (j: nat)
    requires i <= |text|
    ensures i <= j <= |text|
    ensures forall k :: i <= k < j ==> IsSpace(text[k])
    ensures j == |text| || !IsSpace(text[j])
    decreases |text| - i
  {
    if i == |text| || !IsSpace(text[i]) then i else SpaceRunEnd(text, i + 1)
  }

  /** The first separator position at or after `from`. */
  function FirstBreak(text: string, from: nat): (r: Option<nat>)
    ensures r.Some? ==> from <= r.value < |text| && BreakAt(text, r.value)
    ensures r.Some? ==> forall k :: from <= k < r.value ==> !BreakAt(text, k)
    ensures r.None? ==> forall k :: from <= k < |text| ==> !BreakAt(text, k)
    decreases |text| - from
  {
    if from >= |text| then None
    else if BreakAt(text, from) then Some(from)
    else FirstBreak(text, from + 1)
  }

  /** The pieces of `re.split`, each with the whitespace run removed after it (`""` after the last). */
  function Segments(text: string): (segs: seq<(string, string)>)
    ensures |segs| >= 1
    decreases |text|
  {
    match FirstBreak(text, 1)
    case None => [(text, "")]
    case Some(i) =>
      var j := SpaceRunEnd(text, i);
      [(text[..i], text[i..j])] + Segments(text[j..])
  }

  /** The sentences `re.split(r'(?<=[.!?])\s+', text)` returns. */
  function SplitSentences(text: string): (pieces: seq<string>)
    ensures |pieces| >= 1
  {
    var segs := Segments(text);
    seq(|segs|, i requires 0 <= i < |segs| => segs[i].0)
  }

  /** The pieces glued back together with their separators. */
  function Glue(segs: seq<(string, string)>): string {
    if segs == [] then [] else segs[0].0 + segs[0].1 + Glue(segs[1..])
  }

  /** Gluing a piece and its run in front. */
  lemma GlueCons(piece: string, run: string, rest: seq<(string, string)>)
    ensures Glue([(piece, run)] + rest) == piece + run + Glue(rest)
  {
    assert ([(piece, run)] + rest)[1..] == rest;
  }

  /** Splitting loses nothing: the pieces and the removed runs give back the text. */
  lemma {:induction false} SegmentsGlue(text: string)
    ensures Glue(Segments(text)) == text
    decreases |text|
  {
    match FirstBreak(text, 1)
    case None =>
      GlueCons(text, "", []);
    case Some(i) =>
      var j := SpaceRunEnd(text, i);
      SegmentsGlue(text[j..]);
      GlueStep(text, i, j, Segments(text[j..]));
  }

  lemma GlueStep(text: string, i: int, j: int, rest: seq<(string, string)>)
    requires 0 <= i <= j <= |text| && Glue(rest) == text[j..]
    ensures Glue([(text[..i], text[i..j])] + rest) == text
  {
    GlueCons(text[..i], text[i..j], rest);
    assert text == text[..i] + text[i..j] + text[j..];
  }

  /**
   * Every removed run is non-empty whitespace and follows a piece ending in
   * `.`, `!` or `?`; nothing is removed after the last piece.
   */
  lemma {:induction false} SegmentsSeparators(text: string)
    ensures RemovedRuns(Segments(text))
    decreases |text|
  {
    match FirstBreak(text, 1)
    case None =>
    case Some(i) =>
      var j := SpaceRunEnd(text, i);
      SegmentsSeparators(text[j..]);
      RemovedRunsCons(text, i, j, Segments(text[j..]));
  }

  /** What `SegmentsSeparators` promises about the pieces and runs. */
  predicate RemovedRuns(segs: seq<(string, string)>)
    requires |segs| >= 1
  {
    segs[|segs| - 1].1 == [] &&
    (forall i :: 0 <= i < |segs| - 1 ==>
      segs[i].1 != [] && segs[i].0 != [] && segs[i].0[|segs[i].0| - 1] in Terminators) &&
    (forall i, k :: 0 <= i < |segs| - 1 && 0 <= k < |segs[i].1| ==> IsSpace(segs[i].1[k]))
  }

  lemma RemovedRunsCons(text: string, i: int, j: int, rest: seq<(string, string)>)
    requires 1 <= i < |text| && BreakAt(text, i) && j == SpaceRunEnd(text, i)
    requires |rest| >= 1 && RemovedRuns(rest)
    ensures RemovedRuns([(text[..i], text[i..j])] + rest)
  {
    var segs := [(text[..i], text[i..j])] + rest;
    assert forall m :: 1 <= m < |segs| ==> segs[m] == rest[m - 1];
    assert j > i;
    assert text[..i][i - 1] == text[i - 1];
  }

  /** No piece contains a place where the pattern matches. */
  ghost predicate NoBreakIn(segs: seq<(string, string)>) {
    forall i, k :: 0 <= i < |segs| ==> !BreakAt(segs[i].0, k)
  }

  /** A prefix before the first match has no match inside. */
  lemma PrefixNoBreak(text: string, i: int)
    requires 0 <= i <= |text| && forall k :: 1 <= k < i ==> !BreakAt(text, k)
    ensures forall k :: !BreakAt(text[..i], k)
  {
    forall k ensures !BreakAt(text[..i], k) {
      if BreakAt(text[..i], k) {
        assert BreakAt(text, k);
      }
    }
  }

  lemma NoBreakCons(piece: string, run: string, rest: seq<(string, string)>)
    requires (forall k :: !BreakAt(piece, k)) && NoBreakIn(rest)
    ensures NoBreakIn([(piece, run)] + rest)
  {
    var segs := [(piece, run)] + rest;
    assert forall m :: 1 <= m < |segs| ==> segs[m] == rest[m - 1];
  }

  lemma {:induction false} SegmentsNoBreak(text: string)
    ensures NoBreakIn(Segments(text))
    decreases |text|
  {
    match FirstBreak(text, 1)
    case None =>
      PrefixNoBreak(text, |text|);
      assert text[..|text|] == text;
    case Some(i) =>
      var j := SpaceRunEnd(text, i);
      SegmentsNoBreak(text[j..]);
      PrefixNoBreak(text, i);
      NoBreakCons(text[..i], text[i..j], Segments(text[j..]));
  }

  /** A text with no terminator before whitespace is one sentence. */
  lemma SplitSentencesNoBreak(text: string)
    requires forall k :: 1 <= k < |text| ==> !(text[k - 1] in Terminators && IsSpace(text[k]))
    ensures SplitSentences(text) == [text]
  {
    assert FirstBreak(text, 1).None?;
  }

  // ------------------------------------------------------ _chunk_text_by_tokens

  /** `split_text` applied to each sentence, outputs concatenated in order. */
  function SplitEach(v: Vectorizer, sentences: seq<string>): seq<string> {
    if sentences == [] then []
    else
      var n := |sentences| - 1;
      SplitEach(v, sentences[..n]) + v.splitter(v.chunkTokenSize, v.overlap, sentences[n])
  }

  /** Each chunk comes from splitting one of the sentences, and every piece of every split is a chunk. */
  lemma {:induction false} SplitEachMembers(v: Vectorizer, sentences: seq<string>, c: string)
    ensures c in SplitEach(v, sentences) <==>
      exists i :: 0 <= i < |sentences| && c in v.splitter(v.chunkTokenSize, v.overlap, sentences[i])
  {
    if sentences != [] {
      var n := |sentences| - 1;
      SplitEachMembers(v, sentences[..n], c);
      if exists i :: 0 <= i < |sentences| && c in v.splitter(v.chunkTokenSize, v.overlap, sentences[i]) {
        var i :| 0 <= i < |sentences| && c in v.splitter(v.chunkTokenSize, v.overlap, sentences[i]);
        if i < n {
          assert sentences[..n][i] == sentences[i];
        }
      }
      if exists i :: 0 <= i < n && c in v.splitter(v.chunkTokenSize, v.overlap, sentences[..n][i]) {
        var i :| 0 <= i < n && c in v.splitter(v.chunkTokenSize, v.overlap, sentences[..n][i]);
        assert sentences[..n][i] == sentences[i];
      }
    }
  }

  /** The chunks of one text: the text itself when its token count fits, otherwise its split sentences, split again. */
  function Chunks(v: Vectorizer, text: string): seq<string> {
    if v.model.tokenLength(text) > v.chunkTokenSize then SplitEach(v, SplitSentences(text)) else [text]
  }

  /** A text whose tokens fit is its own single chunk. */
  lemma ChunksShort(v: Vectorizer, text: string)
    requires v.model.tokenLength(text) <= v.chunkTokenSize
    ensures Chunks(v, text) == [text]
  {
  }

  /** `_chunk_text_by_tokens`. */
  method ChunkTextByTokens(v: Vectorizer, text: string) returns (chunks: seq<string>)
    ensures chunks == Chunks(v, text)
    ensures v.model.tokenLength(text) <= v.chunkTokenSize ==> chunks == [text]
  {
    var nTokens := v.model.tokenLength(text);
    var sentences: seq<string>;
    if nTokens > v.chunkTokenSize {
      sentences := SplitSentences(text);
    } else {
      return [text];
    }
    chunks := [];
    for i := 0 to |sentences|
      invariant chunks == SplitEach(v, sentences[..i])
    {
      assert sentences[..i + 1][..i] == sentences[..i];
      chunks := chunks + v.splitter(v.chunkTokenSize, v.overlap, sentences[i]);
    }
    assert sentences[..|sentences|] == sentences;
  }

  // ------------------------------------------------------------ _agg_embeddings

  /** Sum of a sequence of reals. */
  function Sum(xs: seq<real>): real {
    if xs == [] then 0.0 else Sum(xs[..|xs| - 1]) + xs[|xs| - 1]
  }

  /** Total character length of the chunks. */
  function TotalLength(chunks: seq<string>): nat {
    if chunks == [] then 0 else TotalLength(chunks[..|chunks| - 1]) + |chunks[|chunks| - 1]|
  }

  /** `lengths / lengths.sum()`. */
  function Weights(chunks: seq<string>): (w: seq<real>)
    requires TotalLength(chunks) > 0
    ensures |w| == |chunks|
    ensures forall i :: 0 <= i < |w| ==> 0.0 <= w[i]
  {
    var total := TotalLength(chunks) as real;
    seq(|chunks|, i requires 0 <= i < |chunks| => |chunks[i]| as real / total)
  }

  lemma {:induction false} WeightsTimesTotal(chunks: seq<string>, total: real)
    requires total > 0.0
    ensures Sum(seq(|chunks|, i requires 0 <= i < |chunks| => |chunks[i]| as real / total)) * total == TotalLength(chunks) as real
  {
    var w := seq(|chunks|, i requires 0 <= i < |chunks| => |chunks[i]| as real / total);
    if chunks != [] {
      var n := |chunks| - 1;
      var p := chunks[..n];
      WeightsTimesTotal(p, total);
      var wp := seq(|p|, i requires 0 <= i < |p| => |p[i]| as real / total);
      assert w[..n] == wp;
      var x := |chunks[n]| as real / total;
      assert x * total == |chunks[n]| as real;
      assert Sum(w) * total == Sum(wp) * total + x * total;
    }
  }

  /** The weights sum to 1. */
  lemma WeightsSumToOne(chunks: seq<string>)
    requires TotalLength(chunks) > 0
    ensures Sum(Weights(chunks)) == 1.0
  {
    var total := TotalLength(chunks) as real;
    WeightsTimesTotal(chunks, total);
    assert Weights(chunks) == seq(|chunks|, i requires 0 <= i < |chunks| => |chunks[i]| as real / total);
    CancelFactor(Sum(Weights(chunks)), total);
  }

  lemma CancelFactor(x: real, t: real)
    requires t > 0.0 && x * t == t
    ensures x == 1.0
  {
    assert (x - 1.0) * t == 0.0;
  }

  /** Column `d` of `embeddings * weights[:, None]`, summed. */
  function WeightedSum(w: seq<real>, embeddings: seq<seq<real>>, d: nat): real
    requires |w| == |embeddings|
    requires forall i :: 0 <= i < |embeddings| ==> d < |embeddings[i]|
  {
    if w == [] then 0.0
    else
      var n := |w| - 1;
      WeightedSum(w[..n], embeddings[..n], d) + w[n] * embeddings[n][d]
  }

  /** All embeddings have dimension `dim`. */
  predicate Rows(embeddings: seq<seq<real>>, dim: nat) {
    forall i :: 0 <= i < |embeddings| ==> |embeddings[i]| == dim
  }

  /** `_agg_embeddings`: the length-weighted mean of the chunk embeddings; it needs a total length above 0. */
  function Agg(chunks: seq<string>, embeddings: seq<seq<real>>, dim: nat): (r: seq<real>)
    requires |embeddings| == |chunks| && Rows(embeddings, dim) && TotalLength(chunks) > 0
    ensures |r| == dim
  {
    var w := Weights(chunks);
    seq(dim, d requires 0 <= d < dim => WeightedSum(w, embeddings, d))
  }

  /** One more non-negative weight on a value within the bounds keeps a weighted sum within them. */
  lemma LowerStep(lo: real, sum: real, acc: real, w: real, x: real, sum': real, acc': real)
    requires lo * sum <= acc && 0.0 <= w && lo <= x
    requires sum' == sum + w && acc' == acc + w * x
    ensures lo * sum' <= acc'
  {
    assert w * lo <= w * x;
  }

  lemma UpperStep(hi: real, sum: real, acc: real, w: real, x: real, sum': real, acc': real)
    requires acc <= hi * sum && 0.0 <= w && x <= hi
    requires sum' == sum + w && acc' == acc + w * x
    ensures acc' <= hi * sum'
  {
    assert w * x <= w * hi;
  }

  /** Weights and embeddings that a weighted sum over coordinate `d` accepts, the weights non-negative. */
  predicate Weighted(w: seq<real>, embeddings: seq<seq<real>>, d: nat) {
    |w| == |embeddings| && (forall i :: 0 <= i < |w| ==> 0.0 <= w[i]) &&
    (forall i :: 0 <= i < |embeddings| ==> d < |embeddings[i]|)
  }

  /** Non-negative weights of values at least `lo` give at least `lo` times their sum. */
  lemma {:induction false} WeightedSumLower(w: seq<real>, embeddings: seq<seq<real>>, d: nat, lo: real)
    requires Weighted(w, embeddings, d)
    requires forall i :: 0 <= i < |embeddings| ==> lo <= embeddings[i][d]
    ensures lo * Sum(w) <= WeightedSum(w, embeddings, d)
  {
    if w != [] {
      var n := |w| - 1;
      var wp, ep := w[..n], embeddings[..n];
      assert forall i :: 0 <= i < n ==> wp[i] == w[i] && ep[i] == embeddings[i];
      WeightedSumLower(wp, ep, d, lo);
      LowerStep(lo, Sum(wp), WeightedSum(wp, ep, d), w[n], embeddings[n][d], Sum(w), WeightedSum(w, embeddings, d));
    }
  }

  /** Non-negative weights of values at most `hi` give at most `hi` times their sum. */
  lemma {:induction false} WeightedSumUpper(w: seq<real>, embeddings: seq<seq<real>>, d: nat, hi: real)
    requires Weighted(w, embeddings, d)
    requires forall i :: 0 <= i < |embeddings| ==> embeddings[i][d] <= hi
    ensures WeightedSum(w, embeddings, d) <= hi * Sum(w)
  {
    if w != [] {
      var n := |w| - 1;
      var wp, ep := w[..n], embeddings[..n];
      assert forall i :: 0 <= i < n ==> wp[i] == w[i] && ep[i] == embeddings[i];
      WeightedSumUpper(wp, ep, d, hi);
      UpperStep(hi, Sum(wp), WeightedSum(wp, ep, d), w[n], embeddings[n][d], Sum(w), WeightedSum(w, embeddings, d));
    }
  }

  /** The aggregate is a mean: each coordinate lies between the least and the greatest chunk value there. */
  lemma AggBounds(chunks: seq<string>, embeddings: seq<seq<real>>, dim: nat, d: nat, lo: real, hi: real)
    requires |embeddings| == |chunks| && Rows(embeddings, dim) && TotalLength(chunks) > 0
    requires d < dim && forall i :: 0 <= i < |embeddings| ==> lo <= embeddings[i][d] <= hi
    ensures lo <= Agg(chunks, embeddings, dim)[d] <= hi
  {
    WeightsSumToOne(chunks);
    WeightedSumLower(Weights(chunks), embeddings, d, lo);
    WeightedSumUpper(Weights(chunks), embeddings, d, hi);
  }

  lemma DivSelf(x: real)
    requires x > 0.0
    ensures x / x == 1.0
  {
  }

  /** Weights `l1 / t` and `l2 / t` scaled back by `t`. */
  lemma ScaledPair(acc: real, w1: real, w2: real, l1: real, l2: real, a: real, b: real, t: real)
    requires t > 0.0 && w1 == l1 / t && w2 == l2 / t && acc == w1 * a + w2 * b
    ensures acc * t == l1 * a + l2 * b
  {
    assert w1 * t == l1 && w2 * t == l2;
  }

  /** One non-empty chunk: the aggregate is its embedding. */
  lemma AggSingle(c: string, e: seq<real>)
    requires |c| > 0
    ensures Agg([c], [e], |e|) == e
  {
    assert [c][..0] == [];
    assert TotalLength([c]) == |c|;
    var w := Weights([c]);
    DivSelf(|c| as real);
    assert w[0] == 1.0;
    assert w[..0] == [] && [e][..0] == [];
    forall d | 0 <= d < |e| ensures Agg([c], [e], |e|)[d] == e[d] {
      assert WeightedSum(w, [e], d) == 0.0 + w[0] * e[d];
    }
  }

  lemma WeightsTwo(c1: string, c2: string)
    requires |c1| + |c2| > 0
    ensures TotalLength([c1, c2]) == |c1| + |c2|
    ensures Weights([c1, c2]) == [|c1| as real / (|c1| + |c2|) as real, |c2| as real / (|c1| + |c2|) as real]
  {
    assert [c1, c2][..1] == [c1] && [c1][..0] == [];
    assert TotalLength([c1]) == |c1|;
  }

  lemma WeightedSumTwo(w1: real, w2: real, e1: seq<real>, e2: seq<real>, d: nat)
    requires d < |e1| && d < |e2|
    ensures WeightedSum([w1, w2], [e1, e2], d) == w1 * e1[d] + w2 * e2[d]
  {
    assert [w1, w2][..1] == [w1] && [w1][..0] == [];
    assert [e1, e2][..1] == [e1] && [e1][..0] == [];
    assert WeightedSum([w1], [e1], d) == 0.0 + w1 * e1[d];
  }

  /** Two chunks: the aggregate is `(L1·v1 + L2·v2) / (L1 + L2)`, stated multiplied out by `L1 + L2`. */
  lemma AggTwo(c1: string, c2: string, e1: seq<real>, e2: seq<real>, d: nat)
    requires |c1| + |c2| > 0 && |e1| == |e2| && d < |e1|
    ensures Agg([c1, c2], [e1, e2], |e1|)[d] * (|c1| + |c2|) as real == |c1| as real * e1[d] + |c2| as real * e2[d]
  {
    var t := (|c1| + |c2|) as real;
    var l1, l2 := |c1| as real, |c2| as real;
    WeightsTwo(c1, c2);
    WeightedSumTwo(l1 / t, l2 / t, e1, e2, d);
    ScaledPair(Agg([c1, c2], [e1, e2], |e1|)[d], l1 / t, l2 / t, l1, l2, e1[d], e2[d], t);
  }

  // ---------------------------------------------------------------- transform

  /** The zero vector of `np.zeros(dim)`. */
  function Zeros(dim: nat): (z: seq<real>)
    ensures |z| == dim && forall i :: 0 <= i < dim ==> z[i] == 0.0
  {
    seq(dim, _ => 0.0)
  }

  /** The embeddings `encode(chunks)` returns, one per chunk. */
  function Embeddings(m: SentenceModel, chunks: seq<string>): (e: seq<seq<real>>)
    ensures |e| == |chunks| && forall i :: 0 <= i < |chunks| ==> e[i] == m.encode(chunks[i])
  {
    seq(|chunks|, i requires 0 <= i < |chunks| => m.encode(chunks[i]))
  }

  /**
   * One step of `transform` as the source writes it: the zero vector for no
   * chunks, otherwise the weighted mean. `None` stands for the NaN vector
   * that the 0/0 weights give when every chunk is empty.
   */
  function EncodeAsWritten(v: Vectorizer, text: string): (r: Option<seq<real>>)
    requires Dimensioned(v.model)
    ensures r.Some? ==> |r.value| == v.model.dim
    ensures r.None? <==> Chunks(v, text) != [] && TotalLength(Chunks(v, text)) == 0
  {
    var chunks := Chunks(v, text);
    if chunks == [] then Some(Zeros(v.model.dim))
    else if TotalLength(chunks) == 0 then None
    else Some(Agg(chunks, Embeddings(v.model, chunks), v.model.dim))
  }

  /** The empty text fits in one chunk, `[""]`, and its weights are 0/0. */
  lemma EmptyTextAsWritten(v: Vectorizer)
    requires Dimensioned(v.model) && v.model.tokenLength("") <= v.chunkTokenSize
    ensures Chunks(v, "") == [""]
    ensures EncodeAsWritten(v, "") == None
  {
    assert [""][..0] == [];
    assert TotalLength([""]) == 0;
  }

  /** One step of `transform` with the zero vector for every text whose chunks have no characters. */
  function EncodeText(v: Vectorizer, text: string): (r: seq<real>)
    requires Dimensioned(v.model)
    ensures |r| == v.model.dim
    ensures EncodeAsWritten(v, text).Some? ==> r == EncodeAsWritten(v, text).value
    ensures TotalLength(Chunks(v, text)) == 0 ==> r == Zeros(v.model.dim)
  {
    var chunks := Chunks(v, text);
    if TotalLength(chunks) == 0 then Zeros(v.model.dim)
    else Agg(chunks, Embeddings(v.model, chunks), v.model.dim)
  }

  /** The empty text is encoded as the zero vector. */
  lemma EmptyTextZero(v: Vectorizer)
    requires Dimensioned(v.model) && v.model.tokenLength("") <= v.chunkTokenSize
    ensures EncodeText(v, "") == Zeros(v.model.dim)
  {
    EmptyTextAsWritten(v);
  }

  /** The error `np.vstack` raises for an empty list of arrays. */
  const EmptyStack: Error := ValueError("need at least one array to concatenate")

  /**
   * `transform`: one vector of the embedding dimension per text, in order,
   * stacked by `np.vstack`, which raises for an empty list of texts.
   */
  method Transform(v: Vectorizer, texts: seq<string>) returns (r: Result<seq<seq<real>>>)
    requires Dimensioned(v.model)
    ensures r.Err? <==> texts == []
    ensures r.Err? ==> r.error == EmptyStack
    ensures r.Ok? ==> |r.value| == |texts|
    ensures r.Ok? ==> forall i :: 0 <= i < |texts| ==> r.value[i] == EncodeText(v, texts[i]) && |r.value[i]| == v.model.dim
  {
    var encoded := [];
    for i := 0 to |texts|
      invariant |encoded| == i
      invariant forall k :: 0 <= k < i ==> encoded[k] == EncodeText(v, texts[k])
    {
      ghost var done := encoded;
      var chunks := ChunkTextByTokens(v, texts[i]);
      if chunks == [] || TotalLength(chunks) == 0 {
        encoded := encoded + [Zeros(v.model.dim)];
        EncodedSnoc(v, texts, done, encoded, i);
        continue;
      }
      var chunkEmbeddings := Embeddings(v.model, chunks);
      var weighted := Agg(chunks, chunkEmbeddings, v.model.dim);
      encoded := encoded + [weighted];
      EncodedSnoc(v, texts, done, encoded, i);
    }
    if encoded == [] {
      return Err(EmptyStack);
    }
    r := Ok(encoded);
  }

  /** The loop's invariant is kept by one more encoded text. */
  lemma EncodedSnoc(v: Vectorizer, texts: seq<string>, done: seq<seq<real>>, encoded: seq<seq<real>>, i: nat)
    requires Dimensioned(v.model) && i < |texts| && |done| == i
    requires forall k :: 0 <= k < i ==> done[k] == EncodeText(v, texts[k])
    requires encoded == done + [EncodeText(v, texts[i])]
    ensures forall k :: 0 <= k < i + 1 ==> encoded[k] == EncodeText(v, texts[k])
  {
    forall k | 0 <= k < i + 1
      ensures encoded[k] == EncodeText(v, texts[k])
    {
      if k < i {
        assert encoded[k] == done[k];
      }
    }
  }
}
