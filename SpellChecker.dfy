/**
 * The memoised spell checker of `src/util/caching_spell_checker.py`.
 * Hunspell and SymSpell are oracles; what is modelled is the resolution
 * policy between them, the bounded memo cache and the per-position
 * mapping of `correct_words`.
 */
module SpellChecker {
  import opened Sequences

  /** The dictionary and the two suggestion back ends. */
  datatype Backends = Backends(
    spell: string -> bool,                  // hunspell: the word is in the dictionary
    symspellLookup: string -> seq<string>,  // symspell terms, CLOSEST verbosity, max edit distance 2
    hunspellSuggest: string -> seq<string>) // hunspell suggestions

  /** `maxsize` of the `lru_cache` around `_correct_word`. */
  const CacheSize: nat := 10000

  /**
   * The correction `_correct_word` computes for one word: a dictionary word is
   * kept; otherwise the first SymSpell term wins, then the first Hunspell
   * suggestion, and a word without any suggestion is kept.
   */
  function Resolve(b: Backends, word: string): (r: string)
    ensures b.spell(word) ==> r == word
    ensures !b.spell(word) && b.symspellLookup(word) != [] ==> r == b.symspellLookup(word)[0]
    ensures !b.spell(word) && b.symspellLookup(word) == [] && b.hunspellSuggest(word) != [] ==>
              r == b.hunspellSuggest(word)[0]
    ensures !b.spell(word) && b.symspellLookup(word) == [] && b.hunspellSuggest(word) == [] ==> r == word
    ensures r == word || r in b.symspellLookup(word) || r in b.hunspellSuggest(word)
  {
    if b.spell(word) then word
    else if b.symspellLookup(word) != [] then b.symspellLookup(word)[0]
    else if b.hunspellSuggest(word) != [] then b.hunspellSuggest(word)[0]
    else word
  }

  /** `correct_words` calls `_correct_word` once per distinct word: once for each of `|Distinct(words)|`. */
  lemma DistinctCount(words: seq<string>)
    ensures |Distinct(words)| == |set w | w in words|
  {
    var d := Distinct(words);
    DistinctCardinality(d);
    assert (set w | w in d) == (set w | w in words);
  }

  /** The five-word list of the call-count test has three distinct words. */
  lemma {:induction false} CallCountExample()
    ensures |Distinct(["HECK", "BEEP", "BUMP", "HECK", "BUMP"])| == 3
  {
    var words := ["HECK", "BEEP", "BUMP", "HECK", "BUMP"];
    DistinctCount(words);
    assert (set w | w in words) == {"HECK", "BEEP", "BUMP"};
  }

  /** Every entry of `m` holds the correction `Resolve` computes for its word. */
  ghost predicate Consistent(m: map<string, string>, b: Backends) {
    forall w :: w in m ==> m[w] == Resolve(b, w)
  }

  /** Evicting one entry keeps the memo consistent and makes room for one more. */
  lemma Evict(m: map<string, string>, b: Backends, k: string)
    requires k in m && Consistent(m, b)
    ensures Consistent(m - {k}, b)
    ensures |m - {k}| == |m| - 1
  {
    assert (m - {k}).Keys == m.Keys - {k};
    assert |m.Keys - {k}| == |m.Keys| - 1;
  }

  /** Storing a fresh correction keeps the memo consistent and grows it by one. */
  lemma Insert(m: map<string, string>, b: Backends, k: string)
    requires k !in m && Consistent(m, b)
    ensures Consistent(m[k := Resolve(b, k)], b)
    ensures |m[k := Resolve(b, k)]| == |m| + 1
  {
    assert m[k := Resolve(b, k)].Keys == m.Keys + {k};
  }

  class CachingSpellChecker {
    const backends: Backends
    /** The `lru_cache` of `_correct_word`: word to correction. */
    var cache: map<string, string>
    /** Number of calls of `_correct_word` so far, hits included. */
    ghost var calls: nat

    /** The cache stays within its size and agrees with a fresh computation. */
    ghost predicate Valid()
      reads this
    {
      |cache| <= CacheSize && Consistent(cache, backends)
    }

    constructor (backends: Backends)
      ensures Valid() && this.backends == backends
      ensures cache == map[] && calls == 0
    {
      this.backends := backends;
      cache := map[];
      calls := 0;
    }

    /**
     * `_correct_word` behind its cache: a hit returns the stored correction;
     * a miss computes it, evicting one entry when the cache is full.
     */
    method CorrectWord(word: string) returns (pair: (string, string))
      requires Valid()
      modifies this
      ensures Valid()
      ensures pair == (word, Resolve(backends, word))
      ensures calls == old(calls) + 1
      ensures word in cache && cache.Keys <= old(cache).Keys + {word}
      ensures word in old(cache) ==> cache == old(cache)
    {
      calls := calls + 1;
      if word in cache {
        pair := (word, cache[word]);
        return;
      }
      var corrected := word;
      if !backends.spell(word) {
        var ssSuggestions := backends.symspellLookup(word);
        var hsSuggestions := backends.hunspellSuggest(word);
        corrected :=
          if ssSuggestions != [] then ssSuggestions[0]
          else if hsSuggestions != [] then hsSuggestions[0]
          else word;
      }
      assert corrected == Resolve(backends, word);
      if |cache| == CacheSize {
        var victim :| victim in cache;
        Evict(cache, backends, victim);
        cache := cache - {victim};
      }
      Insert(cache, backends, word);
      cache := cache[word := corrected];
      pair := (word, corrected);
    }

    /**
     * `correct_words`: one correction per position, each distinct word
     * corrected once.
     */
    method CorrectWords(words: seq<string>) returns (result: seq<string>)
      requires Valid()
      modifies this
      ensures Valid()
      ensures |result| == |words|
      ensures forall i :: 0 <= i < |words| ==> result[i] == Resolve(backends, words[i])
      ensures forall i, j :: 0 <= i < |words| && 0 <= j < |words| && words[i] == words[j] ==> result[i] == result[j]
      ensures calls == old(calls) + |set w | w in words|
    {
      var unique := Distinct(words);
      var corrections: map<string, string> := map[];
      for i := 0 to |unique|
        invariant Valid()
        invariant calls == old(calls) + i
        invariant forall w :: w in corrections <==> w in unique[..i]
        invariant Consistent(corrections, backends)
      {
        var pair := CorrectWord(unique[i]);
        corrections := corrections[pair.0 := pair.1];
      }
      assert unique[..|unique|] == unique;
      result := seq(|words|, k requires 0 <= k < |words| =>
        if words[k] in corrections then corrections[words[k]] else words[k]);
      DistinctCount(words);
    }
  }
}
