/**
 * `src/transformers/feature_selector.py`: consensus feature selection. The
 * four rankers (mutual information, random forest importances, Pearson
 * correlation, `SelectKBest`) are oracles that either return a ranking or
 * raise; what is modelled is the failure-tolerant loop over them, the
 * rank-weighted vote, the stable sort by votes, the truncation, and the
 * `FeatureSelector` estimator that stores the selected names.
 */
module FeatureSelector {
  import opened Wrappers
  import opened Sequences

  /** A ranking: feature names with their scores, best first. */
  type Ranking = seq<(string, real)>

  /** A data frame: its column names, and the values of each column. */
  datatype Frame = Frame(columns: seq<string>, data: map<string, seq<real>>)

  /** A ranking method on `(X, y, feature_names)`; `None` when it raises. */
  type Ranker = (Frame, seq<real>, seq<string>) -> Option<Ranking>

  /** The four ranking methods. */
  datatype Rankers = Rankers(mutualInformation: Ranker, randomForest: Ranker, correlation: Ranker, kBest: Ranker)

  /** The `methods` dictionary of `comprehensive_feature_analysis`, in its order. */
  function Methods(r: Rankers): seq<(string, Ranker)> {
    [("Mutual Information", r.mutualInformation), ("Random Forest", r.randomForest),
     ("Correlation", r.correlation), ("K Best", r.kBest)]
  }

  // --------------------------------------------- comprehensive_feature_analysis

  /** `all_results`: one entry per method that did not raise, in method order. */
  function Analysis(methods: seq<(string, Ranker)>, x: Frame, y: seq<real>, names: seq<string>): (r: seq<(string, Ranking)>)
    ensures |r| <= |methods|
  {
    if methods == [] then []
    else
      var n := |methods| - 1;
      var prefix := Analysis(methods[..n], x, y, names);
      match methods[n].1(x, y, names)
      case None => prefix
      case Some(ranking) => prefix + [(methods[n].0, ranking)]
  }

  /** The analysis of two groups of methods is the analysis of the first followed by that of the second. */
  lemma {:induction false} AnalysisAppend(a: seq<(string, Ranker)>, b: seq<(string, Ranker)>, x: Frame, y: seq<real>, names: seq<string>)
    ensures Analysis(a + b, x, y, names) == Analysis(a, x, y, names) + Analysis(b, x, y, names)
  {
    if b == [] {
      assert a + b == a;
    } else {
      var n := |b| - 1;
      assert (a + b)[..|a + b| - 1] == a + b[..n];
      AnalysisAppend(a, b[..n], x, y, names);
    }
  }

  /** A method that raises contributes nothing, and the methods around it still run. */
  lemma AnalysisSkipsFailure(methods: seq<(string, Ranker)>, i: int, x: Frame, y: seq<real>, names: seq<string>)
    requires 0 <= i < |methods| && methods[i].1(x, y, names) == None
    ensures Analysis(methods, x, y, names) == Analysis(methods[..i], x, y, names) + Analysis(methods[i + 1..], x, y, names)
  {
    assert methods == methods[..i] + [methods[i]] + methods[i + 1..];
    AnalysisAppend(methods[..i] + [methods[i]], methods[i + 1..], x, y, names);
    AnalysisAppend(methods[..i], [methods[i]], x, y, names);
    assert [methods[i]][..0] == methods[..0];
  }

  /** A method that returns a ranking contributes exactly that entry, in its place. */
  lemma AnalysisKeepsSuccess(methods: seq<(string, Ranker)>, i: int, x: Frame, y: seq<real>, names: seq<string>)
    requires 0 <= i < |methods| && methods[i].1(x, y, names).Some?
    ensures Analysis(methods, x, y, names) ==
      Analysis(methods[..i], x, y, names) + [(methods[i].0, methods[i].1(x, y, names).value)] + Analysis(methods[i + 1..], x, y, names)
  {
    assert methods == methods[..i] + [methods[i]] + methods[i + 1..];
    AnalysisAppend(methods[..i] + [methods[i]], methods[i + 1..], x, y, names);
    AnalysisAppend(methods[..i], [methods[i]], x, y, names);
    assert [methods[i]][..0] == methods[..0];
  }

  /** `comprehensive_feature_analysis`: run every method, skipping those that raise. */
  method ComprehensiveFeatureAnalysis(r: Rankers, x: Frame, y: seq<real>, names: seq<string>)
    returns (allResults: seq<(string, Ranking)>)
    ensures allResults == Analysis(Methods(r), x, y, names)
  {
    var methods := Methods(r);
    allResults := [];
    for i := 0 to |methods|
      invariant allResults == Analysis(methods[..i], x, y, names)
    {
      assert methods[..i + 1][..i] == methods[..i];
      var outcome := methods[i].1(x, y, names);
      if outcome.None? {
        continue;
      }
      allResults := allResults + [(methods[i].0, outcome.value)];
    }
    assert methods[..|methods|] == methods;
  }

  // ------------------------------------------------ compare_methods_consensus

  /** Python's `s[:k]`, for any integer `k`. */
  function Take<T>(s: seq<T>, k: int): (r: seq<T>)
    ensures r <= s
    ensures k >= 0 ==> |r| == if k <= |s| then k else |s|
    ensures k < 0 ==> |r| == if |s| + k >= 0 then |s| + k else 0
  {
    if k >= 0 then (if k <= |s| then s[..k] else s)
    else (if |s| + k >= 0 then s[..|s| + k] else [])
  }

  /** The vote of the entry at `rank`: `(top_k - rank) / top_k`. */
  function Weight(topK: int, rank: int): real {
    if topK == 0 then 0.0 else (topK - rank) as real / topK as real
  }

  /** Within the first `top_k` ranks, a vote lies in (0, 1], the best rank voting 1. */
  lemma WeightBounds(topK: int, rank: int)
    requires 0 <= rank < topK
    ensures 0.0 < Weight(topK, rank) <= 1.0
    ensures rank == 0 ==> Weight(topK, rank) == 1.0
  {
    var k := topK as real;
    var d := (topK - rank) as real;
    var q := d / k;
    assert q * k == d;
  }

  /** A better rank votes more. */
  lemma WeightDecreasing(topK: int, r1: int, r2: int)
    requires 0 <= r1 < r2 < topK
    ensures Weight(topK, r2) < Weight(topK, r1)
  {
  }

  /** The ballots of one ranking: each of its first `top_k` features with the vote of its rank. */
  function RankBallots(ranking: Ranking, topK: int): (bs: seq<(string, real)>)
    ensures |bs| == |Take(ranking, topK)|
  {
    RankVotes(Take(ranking, topK), topK)
  }

  /** The features of `entries` with the votes of their positions. */
  function RankVotes(entries: Ranking, topK: int): (bs: seq<(string, real)>)
    ensures |bs| == |entries|
  {
    if entries == [] then []
    else
      var n := |entries| - 1;
      RankVotes(entries[..n], topK) + [(entries[n].0, Weight(topK, n))]
  }

  lemma {:induction false} RankVotesIndex(entries: Ranking, topK: int)
    ensures forall i :: 0 <= i < |entries| ==> RankVotes(entries, topK)[i] == (entries[i].0, Weight(topK, i))
  {
    if entries != [] {
      var n := |entries| - 1;
      RankVotesIndex(entries[..n], topK);
      assert forall i :: 0 <= i < n ==> entries[..n][i] == entries[i];
    }
  }

  /** The ballots of all methods, method after method. */
  function Ballots(allResults: seq<(string, Ranking)>, topK: int): seq<(string, real)> {
    if allResults == [] then []
    else
      var n := |allResults| - 1;
      Ballots(allResults[..n], topK) + RankBallots(allResults[n].1, topK)
  }

  /** The accumulated vote of `f` over some ballots. */
  function SumFor(bs: seq<(string, real)>, f: string): real {
    if bs == [] then 0.0
    else
      var n := |bs| - 1;
      SumFor(bs[..n], f) + (if bs[n].0 == f then bs[n].1 else 0.0)
  }

  lemma {:induction false} SumForAppend(a: seq<(string, real)>, b: seq<(string, real)>, f: string)
    ensures SumFor(a + b, f) == SumFor(a, f) + SumFor(b, f)
  {
    if b == [] {
      assert a + b == a;
    } else {
      var n := |b| - 1;
      assert (a + b)[..|a + b| - 1] == a + b[..n];
      SumForAppend(a, b[..n], f);
    }
  }

  /** Ballots that never name `f` give it nothing. */
  lemma {:induction false} SumForAbsent(bs: seq<(string, real)>, f: string)
    requires forall i :: 0 <= i < |bs| ==> bs[i].0 != f
    ensures SumFor(bs, f) == 0.0
  {
    if bs != [] {
      SumForAbsent(bs[..|bs| - 1], f);
    }
  }

  /** The features of a ranking are pairwise different. */
  predicate DistinctFeatures(ranking: Ranking) {
    forall i, j :: 0 <= i < j < |ranking| ==> ranking[i].0 != ranking[j].0
  }

  /** One ranking with distinct features gives any feature a vote between 0 and 1. */
  lemma {:induction false} RankVotesAtMostOne(entries: Ranking, topK: int, f: string)
    requires DistinctFeatures(entries) && |entries| <= topK
    ensures 0.0 <= SumFor(RankVotes(entries, topK), f) <= 1.0
  {
    if entries != [] {
      var n := |entries| - 1;
      var prefix := entries[..n];
      RankVotesAtMostOne(prefix, topK, f);
      WeightBounds(topK, n);
      if entries[n].0 == f {
        RankVotesIndex(prefix, topK);
        SumForAbsent(RankVotes(prefix, topK), f);
      }
    }
  }

  /** The first `top_k` entries of a ranking with distinct features have distinct features. */
  lemma TakeDistinct(ranking: Ranking, topK: int)
    requires DistinctFeatures(ranking) && topK >= 0
    ensures DistinctFeatures(Take(ranking, topK)) && |Take(ranking, topK)| <= topK
  {
    var top := Take(ranking, topK);
    assert forall i :: 0 <= i < |top| ==> top[i] == ranking[i];
  }

  /** Every method's ranking names each feature at most once. */
  predicate AllDistinct(allResults: seq<(string, Ranking)>) {
    forall m :: 0 <= m < |allResults| ==> DistinctFeatures(allResults[m].1)
  }

  /**
   * When every ranking names each feature at most once, a feature's total
   * vote is at most the number of methods that ran, and never negative.
   */
  lemma {:induction false} VoteAtMostMethods(allResults: seq<(string, Ranking)>, topK: int, f: string)
    requires topK > 0 && AllDistinct(allResults)
    ensures 0.0 <= SumFor(Ballots(allResults, topK), f) <= |allResults| as real
  {
    if allResults != [] {
      var n := |allResults| - 1;
      var prefix := allResults[..n];
      assert AllDistinct(prefix) by {
        assert forall m :: 0 <= m < n ==> prefix[m] == allResults[m];
      }
      VoteAtMostMethods(prefix, topK, f);
      var ranking := allResults[n].1;
      assert DistinctFeatures(ranking);
      TakeDistinct(ranking, topK);
      RankVotesAtMostOne(Take(ranking, topK), topK, f);
      SumForAppend(Ballots(prefix, topK), RankBallots(ranking, topK), f);
    }
  }

  /** Position of `f` among the vote entries, or -1. */
  function IndexOf(votes: seq<(string, real)>, f: string): (i: int)
    ensures -1 <= i < |votes|
    ensures i >= 0 ==> votes[i].0 == f
    ensures i == -1 <==> forall j :: 0 <= j < |votes| ==> votes[j].0 != f
  {
    if votes == [] then -1
    else if votes[|votes| - 1].0 == f then |votes| - 1
    else IndexOf(votes[..|votes| - 1], f)
  }

  /** `feature_votes.get(f, 0)`. */
  function VoteOf(votes: seq<(string, real)>, f: string): real {
    var i := IndexOf(votes, f);
    if i < 0 then 0.0 else votes[i].1
  }

  /** `f` has an entry in the table. */
  predicate Mentions(votes: seq<(string, real)>, f: string) {
    exists i :: 0 <= i < |votes| && votes[i].0 == f
  }

  /** The entries of a vote table: every feature once. */
  predicate DistinctKeys(votes: seq<(string, real)>) {
    forall i, j :: 0 <= i < j < |votes| ==> votes[i].0 != votes[j].0
  }

  /** In a table with distinct features, the entry found for a feature is its only one. */
  lemma IndexOfUnique(votes: seq<(string, real)>, j: int)
    requires DistinctKeys(votes) && 0 <= j < |votes|
    ensures IndexOf(votes, votes[j].0) == j
  {
  }

  /** `feature_votes[feature] += vote`, creating the entry at 0 first when missing. */
  function AddVote(votes: seq<(string, real)>, b: (string, real)): seq<(string, real)> {
    var i := IndexOf(votes, b.0);
    if i < 0 then votes + [(b.0, 0.0 + b.1)]
    else votes[i := (b.0, votes[i].1 + b.1)]
  }

  /** Adding a ballot keeps every feature once and mentions exactly one feature more, the ballot's. */
  lemma AddVoteKeys(votes: seq<(string, real)>, b: (string, real))
    requires DistinctKeys(votes)
    ensures DistinctKeys(AddVote(votes, b))
    ensures forall f :: Mentions(AddVote(votes, b), f) <==> Mentions(votes, f) || f == b.0
  {
    var r := AddVote(votes, b);
    forall f ensures Mentions(r, f) <==> Mentions(votes, f) || f == b.0 {
      if Mentions(votes, f) {
        var j :| 0 <= j < |votes| && votes[j].0 == f;
        assert r[j].0 == f;
      }
      if f == b.0 {
        assert r[if IndexOf(votes, b.0) < 0 then |votes| else IndexOf(votes, b.0)].0 == f;
      }
      if Mentions(r, f) && f != b.0 {
        var j :| 0 <= j < |r| && r[j].0 == f;
        assert votes[j].0 == f;
      }
    }
  }

  /** Adding a ballot adds its vote to its feature's entry and changes no other feature's. */
  lemma AddVoteValue(votes: seq<(string, real)>, b: (string, real), f: string)
    requires DistinctKeys(votes)
    ensures VoteOf(AddVote(votes, b), f) == VoteOf(votes, f) + (if f == b.0 then b.1 else 0.0)
  {
    var r := AddVote(votes, b);
    AddVoteKeys(votes, b);
    var i := IndexOf(votes, b.0);
    var j := IndexOf(votes, f);
    if f == b.0 {
      var k := if i < 0 then |votes| else i;
      assert r[k].0 == f;
      IndexOfUnique(r, k);
    } else if j >= 0 {
      assert r[j] == votes[j];
      IndexOfUnique(r, j);
    } else {
      assert forall k :: 0 <= k < |r| ==> r[k].0 != f by {
        forall k | 0 <= k < |r| ensures r[k].0 != f {
          if k < |votes| {
            assert r[k].0 == votes[k].0;
          }
        }
      }
    }
  }

  /** `feature_votes` after counting the ballots in order. */
  function Accumulate(bs: seq<(string, real)>): seq<(string, real)> {
    if bs == [] then []
    else AddVote(Accumulate(bs[..|bs| - 1]), bs[|bs| - 1])
  }

  /** Counting one ballot more is one `AddVote` more. */
  lemma AccumulateSnoc(bs: seq<(string, real)>, b: (string, real))
    ensures Accumulate(bs + [b]) == AddVote(Accumulate(bs), b)
  {
    assert (bs + [b])[..|bs|] == bs;
  }

  /** A feature is named by some ballot exactly when it is named by an earlier one or by the last. */
  lemma MentionsSnoc(bs: seq<(string, real)>, f: string)
    requires bs != []
    ensures Mentions(bs, f) <==> Mentions(bs[..|bs| - 1], f) || f == bs[|bs| - 1].0
  {
    var n := |bs| - 1;
    if Mentions(bs, f) && f != bs[n].0 {
      var k :| 0 <= k < |bs| && bs[k].0 == f;
      assert bs[..n][k].0 == f;
    }
    if Mentions(bs[..n], f) {
      var k :| 0 <= k < n && bs[..n][k].0 == f;
      assert bs[k].0 == f;
    }
  }

  /** `feature_votes` names each feature once. */
  lemma {:induction false} AccumulateDistinct(bs: seq<(string, real)>)
    ensures DistinctKeys(Accumulate(bs))
  {
    if bs != [] {
      AccumulateDistinct(bs[..|bs| - 1]);
      AddVoteKeys(Accumulate(bs[..|bs| - 1]), bs[|bs| - 1]);
    }
  }

  /** `feature_votes` names exactly the features some ballot names. */
  lemma {:induction false} AccumulateMentions(bs: seq<(string, real)>, f: string)
    ensures Mentions(Accumulate(bs), f) <==> Mentions(bs, f)
  {
    if bs != [] {
      var n := |bs| - 1;
      AccumulateMentions(bs[..n], f);
      AccumulateDistinct(bs[..n]);
      AddVoteKeys(Accumulate(bs[..n]), bs[n]);
      MentionsSnoc(bs, f);
    }
  }

  /** Each feature's entry in `feature_votes` is the sum of its votes. */
  lemma {:induction false} AccumulateValue(bs: seq<(string, real)>, f: string)
    ensures VoteOf(Accumulate(bs), f) == SumFor(bs, f)
  {
    if bs != [] {
      var n := |bs| - 1;
      AccumulateValue(bs[..n], f);
      AccumulateDistinct(bs[..n]);
      AddVoteValue(Accumulate(bs[..n]), bs[n], f);
    }
  }

  // ------------------------------------------------------- stable sorting

  /** Non-increasing in the vote. */
  predicate SortedByVote(s: seq<(string, real)>) {
    forall i, j :: 0 <= i < j < |s| ==> s[i].1 >= s[j].1
  }

  /** Put `x` before the first entry whose vote is at most its own. */
  function InsertByVote(x: (string, real), s: seq<(string, real)>): (r: seq<(string, real)>)
    ensures |r| == |s| + 1
    ensures multiset(r) == multiset(s) + multiset{x}
  {
    if s == [] || x.1 >= s[0].1 then [x] + s
    else
      assert s == [s[0]] + s[1..];
      [s[0]] + InsertByVote(x, s[1..])
  }

  lemma {:induction false} InsertByVoteSorted(x: (string, real), s: seq<(string, real)>)
    requires SortedByVote(s)
    ensures SortedByVote(InsertByVote(x, s))
  {
    if s != [] && x.1 < s[0].1 {
      InsertByVoteSorted(x, s[1..]);
      var r := InsertByVote(x, s[1..]);
      forall k | 0 <= k < |r| ensures s[0].1 >= r[k].1 {
        assert r[k] in multiset(r);
        assert r[k] in multiset(s[1..]) + multiset{x};
        if r[k] != x {
          assert r[k] in s[1..];
        }
      }
    }
  }

  /** `sorted(..., key=vote, reverse=True)`: by vote, highest first, keeping the order of ties. */
  function SortByVote(s: seq<(string, real)>): (r: seq<(string, real)>)
    ensures |r| == |s|
    ensures multiset(r) == multiset(s)
  {
    if s == [] then []
    else
      assert s == [s[0]] + s[1..];
      InsertByVote(s[0], SortByVote(s[1..]))
  }

  lemma {:induction false} SortByVoteSorted(s: seq<(string, real)>)
    ensures SortedByVote(SortByVote(s))
  {
    if s != [] {
      SortByVoteSorted(s[1..]);
      InsertByVoteSorted(s[0], SortByVote(s[1..]));
    }
  }

  /** The entries of `s` with vote `v`, in order. */
  function WithVote(s: seq<(string, real)>, v: real): seq<(string, real)> {
    if s == [] then []
    else (if s[0].1 == v then [s[0]] else []) + WithVote(s[1..], v)
  }

  /** `WithVote` of an entry put in front. */
  lemma WithVoteCons(x: (string, real), s: seq<(string, real)>, v: real)
    ensures WithVote([x] + s, v) == (if x.1 == v then [x] else []) + WithVote(s, v)
  {
    assert ([x] + s)[0] == x;
    assert ([x] + s)[1..] == s;
  }

  lemma {:induction false} InsertByVoteTies(x: (string, real), s: seq<(string, real)>, v: real)
    ensures WithVote(InsertByVote(x, s), v) == (if x.1 == v then [x] else []) + WithVote(s, v)
  {
    if s == [] || x.1 >= s[0].1 {
      WithVoteCons(x, s, v);
    } else {
      var h := s[0];
      var t := s[1..];
      assert s == [h] + t;
      InsertByVoteTies(x, t, v);
      WithVoteCons(h, InsertByVote(x, t), v);
      WithVoteCons(h, t, v);
      var hx := if x.1 == v then [x] else [];
      var hh := if h.1 == v then [h] else [];
      // x is put after h, so x and h share a vote only when x.1 < h.1 rules it out
      assert hx == [] || hh == [];
      assert hh + (hx + WithVote(t, v)) == hx + (hh + WithVote(t, v));
    }
  }

  /** The sort is stable: the entries with one vote keep their relative order. */
  lemma {:induction false} SortByVoteStable(s: seq<(string, real)>, v: real)
    ensures WithVote(SortByVote(s), v) == WithVote(s, v)
  {
    if s != [] {
      SortByVoteStable(s[1..], v);
      InsertByVoteTies(s[0], SortByVote(s[1..]), v);
      WithVoteCons(s[0], s[1..], v);
      assert s == [s[0]] + s[1..];
    }
  }

  /** `compare_methods_consensus`: the `top_k` features with the highest accumulated votes. */
  function Consensus(allResults: seq<(string, Ranking)>, topK: int): seq<(string, real)> {
    Take(SortByVote(Accumulate(Ballots(allResults, topK))), topK)
  }

  /** A permutation of a table with distinct features has distinct features. */
  lemma DistinctKeysPermutation(votes: seq<(string, real)>, sorted: seq<(string, real)>, i: int, j: int)
    requires DistinctKeys(votes) && multiset(sorted) == multiset(votes)
    requires 0 <= i < j < |sorted|
    ensures sorted[i].0 != sorted[j].0
  {
    assert sorted[i] in multiset(votes) && sorted[j] in multiset(votes);
    var a :| 0 <= a < |votes| && votes[a] == sorted[i];
    var b :| 0 <= b < |votes| && votes[b] == sorted[j];
    if a == b {
      assert multiset(sorted[..j]) + multiset(sorted[j..]) == multiset(sorted) by {
        assert sorted == sorted[..j] + sorted[j..];
      }
      assert sorted[i] in multiset(sorted[..j]);
      assert sorted[j] in multiset(sorted[j..]);
      MultiplicityOne(votes, a);
      assert false;
    }
  }

  /** In a table with distinct features every entry occurs once. */
  lemma MultiplicityOne(votes: seq<(string, real)>, a: int)
    requires DistinctKeys(votes) && 0 <= a < |votes|
    ensures multiset(votes)[votes[a]] == 1
  {
    assert votes == votes[..a] + [votes[a]] + votes[a + 1..];
    assert votes[a] !in votes[..a];
    assert votes[a] !in votes[a + 1..] by {
      forall k | a + 1 <= k < |votes| ensures votes[k] != votes[a] {}
    }
    assert multiset(votes) == multiset(votes[..a]) + multiset{votes[a]} + multiset(votes[a + 1..]);
  }

  /**
   * The consensus has at most `top_k` entries, each an entry of the vote
   * table: each feature once with its total vote, in non-increasing vote
   * order; and the sort keeps equal votes in the order the features were
   * first voted for.
   */
  lemma ConsensusSpec(allResults: seq<(string, Ranking)>, topK: int)
    requires topK >= 0
    ensures var c := Consensus(allResults, topK);
      var bs := Ballots(allResults, topK);
      var votes := Accumulate(bs);
      |c| <= topK && |c| <= |votes| &&
      SortedByVote(c) &&
      DistinctKeys(c) &&
      (forall i :: 0 <= i < |c| ==> c[i] in votes && c[i].1 == SumFor(bs, c[i].0)) &&
      (forall f :: Mentions(votes, f) <==> Mentions(bs, f)) &&
      (forall v :: WithVote(SortByVote(votes), v) == WithVote(votes, v))
  {
    var bs := Ballots(allResults, topK);
    var votes := Accumulate(bs);
    AccumulateDistinct(bs);
    forall f ensures Mentions(votes, f) <==> Mentions(bs, f) {
      AccumulateMentions(bs, f);
    }
    var sorted := SortByVote(votes);
    SortByVoteSorted(votes);
    var c := Take(sorted, topK);
    PrefixEntries(bs, sorted, c);
    PrefixDistinct(votes, sorted, c);
    forall v ensures WithVote(SortByVote(votes), v) == WithVote(votes, v) {
      SortByVoteStable(votes, v);
    }
  }

  /**
   * The consensus is the top `top_k` of the vote table: it has `min(top_k, n)`
   * entries for a table of `n` features, and no entry left out has a larger
   * vote than any entry kept.
   */
  lemma ConsensusTopK(allResults: seq<(string, Ranking)>, topK: int)
    requires topK >= 0
    ensures var c := Consensus(allResults, topK);
      var votes := Accumulate(Ballots(allResults, topK));
      |c| == (if topK <= |votes| then topK else |votes|) &&
      forall e, i :: e in votes && e !in c && 0 <= i < |c| ==> e.1 <= c[i].1
  {
    var votes := Accumulate(Ballots(allResults, topK));
    var sorted := SortByVote(votes);
    SortByVoteSorted(votes);
    var c := Take(sorted, topK);
    forall e, i | e in votes && e !in c && 0 <= i < |c| ensures e.1 <= c[i].1 {
      assert e in multiset(sorted);
      var k :| 0 <= k < |sorted| && sorted[k] == e;
      assert c[i] == sorted[i];
    }
  }

  /** Every entry of a prefix of a permuted vote table is a table entry holding its feature's total. */
  lemma PrefixEntries(bs: seq<(string, real)>, sorted: seq<(string, real)>, c: seq<(string, real)>)
    requires DistinctKeys(Accumulate(bs)) && multiset(sorted) == multiset(Accumulate(bs)) && c <= sorted
    ensures forall i :: 0 <= i < |c| ==> c[i] in Accumulate(bs) && c[i].1 == SumFor(bs, c[i].0)
  {
    var votes := Accumulate(bs);
    forall i | 0 <= i < |c| ensures c[i] in votes && c[i].1 == SumFor(bs, c[i].0) {
      assert c[i] == sorted[i];
      assert sorted[i] in multiset(votes);
      var k :| 0 <= k < |votes| && votes[k] == sorted[i];
      IndexOfUnique(votes, k);
      AccumulateValue(bs, votes[k].0);
    }
  }

  /** A prefix of a permuted table with distinct features has distinct features. */
  lemma PrefixDistinct(votes: seq<(string, real)>, sorted: seq<(string, real)>, c: seq<(string, real)>)
    requires DistinctKeys(votes) && multiset(sorted) == multiset(votes) && c <= sorted
    ensures DistinctKeys(c)
  {
    forall i, j | 0 <= i < j < |c| ensures c[i].0 != c[j].0 {
      assert c[i] == sorted[i] && c[j] == sorted[j];
      DistinctKeysPermutation(votes, sorted, i, j);
    }
  }

  /** The inline update of the voting loop is `AddVote`. */
  lemma VoteUpdate(votes: seq<(string, real)>, feature: string, w: real)
    ensures var i := IndexOf(votes, feature);
      (i < 0 ==> (votes + [(feature, 0.0)])[|votes| := (feature, 0.0 + w)] == AddVote(votes, (feature, w))) &&
      (i >= 0 ==> votes[i := (feature, votes[i].1 + w)] == AddVote(votes, (feature, w)))
  {
    var i := IndexOf(votes, feature);
    if i < 0 {
      assert (votes + [(feature, 0.0)])[|votes| := (feature, 0.0 + w)] == votes + [(feature, 0.0 + w)];
    }
  }

  /** One method more adds the ballots of its ranking. */
  lemma BallotsSnoc(allResults: seq<(string, Ranking)>, m: int, topK: int)
    requires 0 <= m < |allResults|
    ensures Ballots(allResults[..m + 1], topK) == Ballots(allResults[..m], topK) + RankVotes(Take(allResults[m].1, topK), topK)
  {
    assert allResults[..m + 1][..m] == allResults[..m];
  }

  /** One rank more adds one ballot. */
  lemma RankVotesSnoc(before: seq<(string, real)>, top: Ranking, rank: int, topK: int)
    requires 0 <= rank < |top|
    ensures before + RankVotes(top[..rank + 1], topK) == (before + RankVotes(top[..rank], topK)) + [(top[rank].0, Weight(topK, rank))]
  {
    assert top[..rank + 1][..rank] == top[..rank];
  }

  /** The inner loop's invariant is kept by one vote. */
  lemma VoteStep(before: seq<(string, real)>, top: Ranking, rank: int, topK: int, prev: seq<(string, real)>, next: seq<(string, real)>)
    requires 0 <= rank < |top|
    requires prev == Accumulate(before + RankVotes(top[..rank], topK))
    requires next == AddVote(prev, (top[rank].0, Weight(topK, rank)))
    ensures next == Accumulate(before + RankVotes(top[..rank + 1], topK))
  {
    RankVotesSnoc(before, top, rank, topK);
    AccumulateSnoc(before + RankVotes(top[..rank], topK), (top[rank].0, Weight(topK, rank)));
  }

  /** One vote: a feature not yet in the table enters it at 0, then its total grows by `w`. */
  method CastVote(votes: seq<(string, real)>, feature: string, w: real) returns (r: seq<(string, real)>)
    ensures r == AddVote(votes, (feature, w))
  {
    r := votes;
    var i := IndexOf(r, feature);
    if i < 0 {
      r := r + [(feature, 0.0)];
      i := |r| - 1;
    }
    r := r[i := (feature, r[i].1 + w)];
    VoteUpdate(votes, feature, w);
  }

  /** The voting loop of `compare_methods_consensus`, then the sort and the truncation. */
  method CompareMethodsConsensus(allResults: seq<(string, Ranking)>, topK: int) returns (consensus: seq<(string, real)>)
    ensures consensus == Consensus(allResults, topK)
  {
    var votes: seq<(string, real)> := [];
    for m := 0 to |allResults|
      invariant votes == Accumulate(Ballots(allResults[..m], topK))
    {
      var top := Take(allResults[m].1, topK);
      ghost var before := Ballots(allResults[..m], topK);
      assert top[..0] == [];
      assert before + RankVotes(top[..0], topK) == before;
      for rank := 0 to |top|
        invariant votes == Accumulate(before + RankVotes(top[..rank], topK))
      {
        ghost var prev := votes;
        votes := CastVote(votes, top[rank].0, Weight(topK, rank));
        VoteStep(before, top, rank, topK, prev, votes);
      }
      assert top[..|top|] == top;
      BallotsSnoc(allResults, m, topK);
    }
    assert allResults[..|allResults|] == allResults;
    consensus := Take(SortByVote(votes), topK);
  }

  // --------------------------------------------------------- FeatureSelector

  /** The names of a list of (feature, rating) pairs. */
  function FeatureNamesOf(consensus: seq<(string, real)>): (names: seq<string>)
    ensures |names| == |consensus|
    ensures forall i :: 0 <= i < |names| ==> names[i] == consensus[i].0
  {
    seq(|consensus|, i requires 0 <= i < |consensus| => consensus[i].0)
  }

  /** The requested columns the frame does not have, in request order. */
  function MissingColumns(x: Frame, columns: seq<string>): (r: seq<string>)
    ensures forall c :: c in r <==> c in columns && !(c in x.columns && c in x.data)
  {
    if columns == [] then []
    else
      var n := |columns| - 1;
      var rest := MissingColumns(x, columns[..n]);
      assert forall c :: c in columns <==> c in columns[..n] || c == columns[n] by {
        assert columns == columns[..n] + [columns[n]];
      }
      if columns[n] in x.columns && columns[n] in x.data then rest else rest + [columns[n]]
  }

  /** `X[columns]`: the frame restricted to the given columns, in their order; a missing column is a `KeyError`. */
  function Project(x: Frame, columns: seq<string>): (r: Result<Frame>)
    ensures r.Ok? <==> forall c :: c in columns ==> c in x.columns && c in x.data
    ensures r.Err? ==> r.error.KeyError? && r.error.key in columns && !(r.error.key in x.columns && r.error.key in x.data)
    ensures r.Ok? ==> r.value.columns == columns && r.value.data.Keys == set c | c in columns
    ensures r.Ok? ==> forall c :: c in columns ==> r.value.data[c] == x.data[c]
  {
    var missing := MissingColumns(x, columns);
    if missing == [] then
      Ok(Frame(columns, map c | c in columns :: x.data[c]))
    else
      assert missing[0] in missing;
      Err(KeyError(missing[0]))
  }

  class Selector {
    const topK: int
    /** `_important_features`: `None` until fitted. */
    var importantFeatures: Option<seq<string>>

    constructor (topK: int)
      ensures this.topK == topK && importantFeatures == None
    {
      this.topK := topK;
      importantFeatures := None;
    }

    /**
     * `fit`: reject a label argument that is not iterable; otherwise rank
     * the columns with every method, take the consensus, and store its
     * feature names once each.
     */
    method Fit(x: Frame, y: Option<seq<real>>, rankers: Rankers) returns (r: Result<()>)
      modifies this
      ensures y.None? ==> r == Err(ValueError("y should be iterable")) && importantFeatures == old(importantFeatures)
      ensures y.Some? ==> r == Ok(()) && importantFeatures.Some?
      ensures y.Some? ==>
        var names := FeatureNamesOf(Consensus(Analysis(Methods(rankers), x, y.value, x.columns), topK));
        var selected := importantFeatures.value;
        (forall i, j :: 0 <= i < j < |selected| ==> selected[i] != selected[j]) &&
        (forall f :: f in selected <==> f in names)
    {
      if y.None? {
        return Err(ValueError("y should be iterable"));
      }
      var extraFeatureNames := x.columns;
      var results := ComprehensiveFeatureAnalysis(rankers, x, y.value, extraFeatureNames);
      var consensus := CompareMethodsConsensus(results, topK);
      var features := FeatureNamesOf(consensus);
      importantFeatures := Some(Distinct(features));
      r := Ok(());
    }

    /** `get_feature_names_out`: a copy of the selected names; unfitted, the `None` has no `copy`. */
    method GetFeatureNamesOut() returns (r: Result<seq<string>>)
      ensures importantFeatures.None? ==> r.Err? && r.error.AttributeError?
      ensures importantFeatures.Some? ==> r == Ok(importantFeatures.value)
    {
      if importantFeatures.None? {
        return Err(AttributeError("'NoneType' object has no attribute 'copy'"));
      }
      r := Ok(importantFeatures.value);
    }

    /** `transform`: the selected columns of the frame; unfitted, indexing by `None` is a `KeyError`. */
    method Transform(x: Frame) returns (r: Result<Frame>)
      ensures importantFeatures.None? ==> r == Err(KeyError("None"))
      ensures importantFeatures.Some? ==> r == Project(x, importantFeatures.value)
    {
      if importantFeatures.None? {
        return Err(KeyError("None"));
      }
      r := Project(x, importantFeatures.value);
    }
  }
}
