/**
 * `src/transformers/spacy_tokenizer.py`: the `newline_sentencizer` pipeline
 * component, which marks every token but the first whose text holds a
 * line break as a sentence start, and the lazily built spaCy pipeline that all tokenizers share.
 * Loading `en_core_web_sm` and the emoticon table of `emot` are inputs.
 */
module SpacyTokenizer {
  import opened Wrappers

  /** A token of a spaCy `Doc`: its text and its `is_sent_start` flag (`None` when unset). */
  datatype Token = Token(text: string, isSentStart: Option<bool>)

  /** A token that `newline_sentencizer` marks: not the first, with a line break in its text. */
  predicate StartsLine(doc: seq<Token>, i: int)
    requires 0 <= i < |doc|
  {
    i > 0 && '\n' in doc[i].text
  }

  /** The document after `newline_sentencizer`. */
  function MarkNewlines(doc: seq<Token>): (r: seq<Token>)
    ensures |r| == |doc|
  {
    seq(|doc|, i requires 0 <= i < |doc| =>
      if StartsLine(doc, i) then doc[i].(isSentStart := Some(true)) else doc[i])
  }

  /**
   * Marked tokens become sentence starts; every other token, the first one
   * included, keeps its flag; no text changes.
   */
  lemma MarkNewlinesSpec(doc: seq<Token>)
    ensures |MarkNewlines(doc)| == |doc|
    ensures forall i :: 0 <= i < |doc| ==> MarkNewlines(doc)[i].text == doc[i].text
    ensures forall i :: 0 <= i < |doc| && StartsLine(doc, i) ==> MarkNewlines(doc)[i].isSentStart == Some(true)
    ensures forall i :: 0 <= i < |doc| && !StartsLine(doc, i) ==> MarkNewlines(doc)[i] == doc[i]
  {
  }

  /** Running the component twice marks nothing more. */
  lemma MarkNewlinesIdempotent(doc: seq<Token>)
    ensures MarkNewlines(MarkNewlines(doc)) == MarkNewlines(doc)
  {
    var once := MarkNewlines(doc);
    assert forall i :: 0 <= i < |doc| ==> (StartsLine(once, i) <==> StartsLine(doc, i));
  }

  /** The sentence starts afterwards: the ones before, plus every token that starts a line. */
  function Starts(doc: seq<Token>): set<int> {
    set i | 0 <= i < |doc| && doc[i].isSentStart == Some(true)
  }

  lemma MarkNewlinesStarts(doc: seq<Token>)
    ensures Starts(MarkNewlines(doc)) == Starts(doc) + set i | 0 <= i < |doc| && StartsLine(doc, i)
  {
  }

  /** `newline_sentencizer(doc)`: updates the tokens in place and returns the same document. */
  method NewlineSentencizer(doc: array<Token>) returns (r: array<Token>)
    modifies doc
    ensures r == doc
    ensures doc[..] == MarkNewlines(old(doc[..]))
  {
    ghost var before := doc[..];
    for i := 0 to doc.Length
      invariant doc[..i] == MarkNewlines(before)[..i]
      invariant doc[i..] == before[i..]
    {
      assert doc[i] == before[i];
      if '\n' in doc[i].text && i > 0 {
        doc[i] := doc[i].(isSentStart := Some(true));
      }
      assert doc[..i + 1] == doc[..i] + [doc[i]];
      assert MarkNewlines(before)[..i + 1] == MarkNewlines(before)[..i] + [MarkNewlines(before)[i]];
    }
    assert doc[..] == doc[..doc.Length];
    r := doc;
  }

  // ------------------------------------------------------------ pipeline

  /**
   * A spaCy `Language` as far as this component sees it: the names of its
   * pipeline components, in order, and the tokenizer's special cases
   * (each string mapped to the texts of the tokens it becomes).
   */
  datatype Pipeline = Pipeline(pipeNames: seq<string>, specialCases: map<string, seq<string>>)

  /** Position of the first `x` in `s`, or -1. */
  function FirstIndex(s: seq<string>, x: string): (i: int)
    ensures i == -1 <==> x !in s
    ensures i != -1 ==> 0 <= i < |s| && s[i] == x && x !in s[..i]
  {
    if s == [] then -1
    else if s[0] == x then 0
    else
      var i := FirstIndex(s[1..], x);
      if i == -1 then -1
      else
        assert s[..i + 1] == [s[0]] + s[1..][..i];
        i + 1
  }

  /** `add_pipe(name, before=anchor)`: the component goes directly before the first `anchor`; a missing anchor is an error. */
  function AddPipeBefore(pipes: seq<string>, name: string, anchor: string): (r: Result<seq<string>>)
    ensures r.Ok? <==> anchor in pipes
    ensures r.Ok? ==> exists i :: 0 <= i < |pipes| && pipes[i] == anchor && anchor !in pipes[..i]
                                  && r.value == pipes[..i] + [name] + pipes[i..]
  {
    var i := FirstIndex(pipes, anchor);
    if i == -1 then Err(ValueError(anchor)) else Ok(pipes[..i] + [name] + pipes[i..])
  }

  /**
   * `add_special_case(key, [{"ORTH": key}])` for every key in turn: each key
   * becomes a single token of its own text.
   */
  function AddSpecialCases(cases: map<string, seq<string>>, keys: seq<string>): (r: map<string, seq<string>>)
    ensures r.Keys == cases.Keys + set k | k in keys
    ensures forall k :: k in keys ==> r[k] == [k]
    ensures forall k :: k in cases && k !in keys ==> r[k] == cases[k]
  {
    if keys == [] then cases
    else
      var n := |keys| - 1;
      assert forall k :: k in keys ==> k in keys[..n] || k == keys[n];
      AddSpecialCases(cases, keys[..n])[keys[n] := [keys[n]]]
  }

  lemma AddSpecialCasesSnoc(cases: map<string, seq<string>>, keys: seq<string>, i: nat)
    requires i < |keys|
    ensures AddSpecialCases(cases, keys[..i + 1]) == AddSpecialCases(cases, keys[..i])[keys[i] := [keys[i]]]
  {
    assert keys[..i + 1][..i] == keys[..i];
  }

  /** The shared pipeline as `_get_nlp_model` leaves it when every step succeeds. */
  function Built(loaded: Pipeline, emoticons: seq<string>): (r: Result<Pipeline>)
    ensures r.Ok? <==> "parser" in loaded.pipeNames
  {
    match AddPipeBefore(loaded.pipeNames, "newline_sentencizer", "parser")
    case Err(e) => Err(e)
    case Ok(pipes) => Ok(Pipeline(pipes, AddSpecialCases(loaded.specialCases, emoticons)))
  }

  /**
   * In a built pipeline the sentencizer runs directly before the parser,
   * every emoticon is one token, and everything else is as loaded.
   */
  lemma BuiltSpec(loaded: Pipeline, emoticons: seq<string>)
    requires "parser" in loaded.pipeNames
    ensures var p := Built(loaded, emoticons).value;
      exists i :: 1 <= i < |p.pipeNames| && p.pipeNames[i] == "parser" && p.pipeNames[i - 1] == "newline_sentencizer"
    ensures var p := Built(loaded, emoticons).value;
      |p.pipeNames| == |loaded.pipeNames| + 1
      && (forall k :: k in emoticons ==> k in p.specialCases && p.specialCases[k] == [k])
      && (forall k :: k in loaded.specialCases && k !in emoticons ==> p.specialCases[k] == loaded.specialCases[k])
  {
    var p := Built(loaded, emoticons).value;
    var pipes := loaded.pipeNames;
    var i :| 0 <= i < |pipes| && pipes[i] == "parser" && "parser" !in pipes[..i]
             && p.pipeNames == pipes[..i] + ["newline_sentencizer"] + pipes[i..];
    assert p.pipeNames[i + 1] == "parser" && p.pipeNames[i] == "newline_sentencizer";
  }

  /**
   * The class attribute `SpacyTokenizer._nlp_model`, shared by every
   * tokenizer: unset until the first `_get_nlp_model` and then kept.
   */
  class ModelCache {
    var nlpModel: Option<Pipeline>

    constructor()
      ensures nlpModel == None
    {
      nlpModel := None;
    }

    /**
     * `_get_nlp_model`, given what `spacy.load` returns. A set attribute is
     * returned as it is. Otherwise the loaded pipeline is stored first and
     * then extended in place, so if `add_pipe` fails the attribute keeps the
     * loaded, unextended pipeline.
     */
    method GetNlpModel(loaded: Pipeline, emoticons: seq<string>) returns (r: Result<Pipeline>)
      modifies this
      ensures old(nlpModel).Some? ==> r == Ok(old(nlpModel).value) && nlpModel == old(nlpModel)
      ensures old(nlpModel).None? ==> r == Built(loaded, emoticons)
      ensures old(nlpModel).None? && r.Ok? ==> nlpModel == Some(r.value)
      ensures old(nlpModel).None? && r.Err? ==> nlpModel == Some(loaded)
    {
      if nlpModel.None? {
        nlpModel := Some(loaded);
        var added := AddPipeBefore(nlpModel.value.pipeNames, "newline_sentencizer", "parser");
        if added.Err? {
          return Err(added.error);
        }
        nlpModel := Some(nlpModel.value.(pipeNames := added.value));
        ghost var start := nlpModel.value.specialCases;
        for i := 0 to |emoticons|
          invariant nlpModel == Some(Pipeline(added.value, AddSpecialCases(start, emoticons[..i])))
        {
          var key := emoticons[i];
          AddSpecialCasesSnoc(start, emoticons, i);
          nlpModel := Some(nlpModel.value.(specialCases := nlpModel.value.specialCases[key := [key]]));
        }
        assert emoticons[..|emoticons|] == emoticons;
      }
      r := Ok(nlpModel.value);
    }
  }

  /** A second call returns the very pipeline of the first, whatever is loaded the second time. */
  method SharedModel(cache: ModelCache, loaded: Pipeline, reloaded: Pipeline, emoticons: seq<string>)
      returns (first: Result<Pipeline>, second: Result<Pipeline>)
    modifies cache
    ensures first.Ok? ==> second == first
    ensures old(cache.nlpModel).None? ==> first == Built(loaded, emoticons)
  {
    first := cache.GetNlpModel(loaded, emoticons);
    second := cache.GetNlpModel(reloaded, emoticons);
  }
}
