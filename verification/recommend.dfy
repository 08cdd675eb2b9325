/**
 The online query `recommend_movies`: a case-insensitive title lookup that
 takes the first matching row, a stable descending sort of that row of the
 similarity matrix, the slice `[1 : top_n + 1]`, and the mapping of the kept
 indices back to titles with 1-based ranks.
 */
module Recommend {
  import opened Wrappers
  import opened Seqs
  import opened Text
  import opened Preprocess
  import opened Ranking

  /** One line of the answer: its rank (the 1-based index), the recommended title and its similarity score. */
  datatype Recommendation = Recommendation(rank: nat, title: string, similarity: real)

  /** The cleaned table and the similarity matrix form a matched pair: one row and one column per movie. */
  predicate MatchedPair(movies: seq<Movie>, sim: seq<seq<real>>) {
    |sim| == |movies| && forall i :: 0 <= i < |sim| ==> |sim[i]| == |movies|
  }

  /** The lookup mask `df['title'].str.lower() == key`. */
  function TitleIs(key: string): Movie -> bool {
    (m: Movie) => Lower(m.title) == key
  }

  /** The row the query looks up: the first row whose lower-cased title equals the lower-cased query. */
  function LookupRow(movies: seq<Movie>, query: string): (r: Option<nat>)
    ensures r.None? <==> forall i :: 0 <= i < |movies| ==> Lower(movies[i].title) != Lower(query)
    ensures r.Some? ==> r.value < |movies| && Lower(movies[r.value].title) == Lower(query)
    ensures r.Some? ==> forall j :: 0 <= j < r.value ==> Lower(movies[j].title) != Lower(query)
  {
    var idx := Positions(movies, TitleIs(Lower(query)));
    if |idx| == 0 then None
    else
      assert forall j :: 0 <= j < idx[0] && TitleIs(Lower(query))(movies[j]) ==> j in idx;
      Some(idx[0])
  }

  function Min(a: int, b: int): int {
    if a <= b then a else b
  }

  function Max(a: int, b: int): int {
    if a >= b then a else b
  }

  /**
   How many entries the slice `[1 : top_n + 1]` keeps from a ranking of `n`
   entries: `min(top_n, n - 1)` for a non-negative `top_n`; none for
   `top_n == -1`; and, because a negative bound counts from the end, all but
   the first and the last `-top_n - 1` entries for `top_n <= -2`.
   */
  function SliceCount(n: nat, topN: int): nat
    requires n >= 1
  {
    if topN >= 0 then Min(topN, n - 1)
    else if topN == -1 then 0
    else Max(0, n + topN)
  }

  /** The closed form agrees with Python's slicing: `[1 : top_n + 1]` of any `n` entries keeps `SliceCount(n, top_n)` of them. */
  lemma SliceCountIsSliceLength<T>(s: seq<T>, topN: int)
    requires |s| >= 1
    ensures |PySlice(s, 1, topN + 1)| == SliceCount(|s|, topN)
  {
  }

  /** The `(index, score)` pairs the query keeps (`sim_scores` after the slice), or `None` when no title matches. */
  function Candidates(movies: seq<Movie>, sim: seq<seq<real>>, query: string, topN: int): (r: Option<seq<Scored>>)
    requires MatchedPair(movies, sim)
    ensures r.None? <==> LookupRow(movies, query).None?
    ensures r.Some? ==> |r.value| == SliceCount(|movies|, topN)
  {
    match LookupRow(movies, query)
    case None => None
    case Some(idx) =>
      var ranked := RankRow(sim[idx]);
      RankingEntries(ranked, sim[idx]);
      Some(PySlice(ranked, 1, topN + 1))
  }

  /** `df.iloc[indices]` with the scores attached as the similarity column and the index renumbered from 1 as the rank. */
  function ToRecommendations(movies: seq<Movie>, c: seq<Scored>): (r: seq<Recommendation>)
    requires forall k :: 0 <= k < |c| ==> c[k].index < |movies|
    ensures |r| == |c|
    ensures forall k :: 0 <= k < |r| ==> r[k].rank == k + 1
    ensures forall k :: 0 <= k < |r| ==> r[k].title == movies[c[k].index].title && r[k].similarity == c[k].score
  {
    seq(|c|, k requires 0 <= k < |c| => Recommendation(k + 1, movies[c[k].index].title, c[k].score))
  }

  /** `recommend_movies(query, top_n)`. */
  function RecommendMovies(movies: seq<Movie>, sim: seq<seq<real>>, query: string, topN: int)
    : (r: Option<seq<Recommendation>>)
    requires MatchedPair(movies, sim)
    ensures r.None? <==> forall i :: 0 <= i < |movies| ==> Lower(movies[i].title) != Lower(query)
    ensures r.Some? ==> |r.value| == SliceCount(|movies|, topN)
    ensures r.Some? ==> forall k :: 0 <= k < |r.value| ==> r.value[k].rank == k + 1
    ensures r.Some? ==> forall k, l :: 0 <= k < l < |r.value| ==> r.value[k].similarity >= r.value[l].similarity
  {
    match Candidates(movies, sim, query, topN)
    case None => None
    case Some(c) =>
      CandidateEntries(movies, sim, query, topN);
      assert StrictlyRanked(c);
      Some(ToRecommendations(movies, c))
  }

  /**
   Line `k` of the answer is entry `k + 1` of the ranking of the looked-up
   row: its title and its score, ranked `k + 1`.
   */
  lemma RecommendFromRanking(movies: seq<Movie>, sim: seq<seq<real>>, query: string, topN: int, ys: seq<Scored>)
    requires MatchedPair(movies, sim)
    requires LookupRow(movies, query).Some?
    requires IsRanking(ys, sim[LookupRow(movies, query).value])
    ensures var r := RecommendMovies(movies, sim, query, topN).value;
            forall k :: 0 <= k < |r| ==>
              && k + 1 < |ys| && ys[k + 1].index < |movies|
              && r[k] == Recommendation(k + 1, movies[ys[k + 1].index].title, ys[k + 1].score)
  {
    var c := Candidates(movies, sim, query, topN).value;
    RecommendIsMapped(movies, sim, query, topN);
    CandidatesFromRanking(movies, sim, query, topN, ys);
    RecommendationsFrom(movies, c, ys);
  }

  lemma RecommendIsMapped(movies: seq<Movie>, sim: seq<seq<real>>, query: string, topN: int)
    requires MatchedPair(movies, sim)
    requires LookupRow(movies, query).Some?
    ensures var c := Candidates(movies, sim, query, topN).value;
            && (forall k :: 0 <= k < |c| ==> c[k].index < |movies|)
            && RecommendMovies(movies, sim, query, topN) == Some(ToRecommendations(movies, c))
  {
    CandidateEntries(movies, sim, query, topN);
  }

  lemma RecommendationsFrom(movies: seq<Movie>, c: seq<Scored>, ys: seq<Scored>)
    requires forall k :: 0 <= k < |c| ==> c[k].index < |movies|
    requires |c| < |ys| && c == ys[1..|c| + 1]
    ensures var r := ToRecommendations(movies, c);
            forall k :: 0 <= k < |r| ==>
              && k + 1 < |ys| && ys[k + 1].index < |movies|
              && r[k] == Recommendation(k + 1, movies[ys[k + 1].index].title, ys[k + 1].score)
  {
    forall k | 0 <= k < |c| ensures c[k] == ys[k + 1] {
      assert ys[1..|c| + 1][k] == ys[k + 1];
    }
  }

  /** Queries that differ only in the case of ASCII letters get the same answer. */
  lemma CaseInsensitive(movies: seq<Movie>, sim: seq<seq<real>>, q1: string, q2: string, topN: int)
    requires MatchedPair(movies, sim)
    requires Lower(q1) == Lower(q2)
    ensures RecommendMovies(movies, sim, q1, topN) == RecommendMovies(movies, sim, q2, topN)
  {
  }

  /**
   Each candidate pairs a distinct column index with that column's score;
   scores never increase and equal scores appear in increasing index order.
   */
  lemma CandidateEntries(movies: seq<Movie>, sim: seq<seq<real>>, query: string, topN: int)
    requires MatchedPair(movies, sim)
    requires LookupRow(movies, query).Some?
    ensures var c := Candidates(movies, sim, query, topN).value;
            var idx := LookupRow(movies, query).value;
            && (forall k :: 0 <= k < |c| ==> c[k].index < |movies| && c[k].score == sim[idx][c[k].index])
            && (forall k, l :: 0 <= k < l < |c| ==> c[k].index != c[l].index)
            && StrictlyRanked(c)
  {
    var idx := LookupRow(movies, query).value;
    var ranked := RankRow(sim[idx]);
    RankingEntries(ranked, sim[idx]);
  }

  /**
   The candidates are the ranking of the looked-up row with its first entry
   removed, cut to the slice's length: candidate `k` is entry `k + 1` of any
   ranking of that row.
   */
  lemma CandidatesFromRanking(movies: seq<Movie>, sim: seq<seq<real>>, query: string, topN: int, ys: seq<Scored>)
    requires MatchedPair(movies, sim)
    requires LookupRow(movies, query).Some?
    requires IsRanking(ys, sim[LookupRow(movies, query).value])
    ensures |Candidates(movies, sim, query, topN).value| < |ys|
    ensures Candidates(movies, sim, query, topN).value == ys[1..|Candidates(movies, sim, query, topN).value| + 1]
  {
    var idx := LookupRow(movies, query).value;
    RankRowIsTheRanking(ys, sim[idx]);
  }

  /**
   The query's own row is left out when its self-score is strictly higher
   than every other score of its row: it then heads the ranking, and the
   slice starts after the head.
   */
  lemma SelfExcludedWhenStrictMax(movies: seq<Movie>, sim: seq<seq<real>>, query: string, topN: int)
    requires MatchedPair(movies, sim)
    requires LookupRow(movies, query).Some?
    requires var idx := LookupRow(movies, query).value;
             forall j :: 0 <= j < |movies| && j != idx ==> sim[idx][j] < sim[idx][idx]
    ensures var c := Candidates(movies, sim, query, topN).value;
            forall k :: 0 <= k < |c| ==> c[k].index != LookupRow(movies, query).value
  {
    var idx := LookupRow(movies, query).value;
    var ranked := RankRow(sim[idx]);
    RankingHead(ranked, sim[idx]);
    RankingEntries(ranked, sim[idx]);
    assert ranked[0].index == idx;
  }

  /**
   As written, the slice drops the head of the ranking, not the query's row:
   when an earlier row scores at least as high as the query row's self-score,
   the head is some other row, and with a `top_n` large enough to keep every
   candidate the query's own row is among the recommendations.
   */
  lemma SelfReturnedAfterEarlierTie(movies: seq<Movie>, sim: seq<seq<real>>, query: string, topN: int, j: nat)
    requires MatchedPair(movies, sim)
    requires LookupRow(movies, query).Some?
    requires topN >= |movies| - 1
    requires var idx := LookupRow(movies, query).value;
             j < idx && sim[idx][j] >= sim[idx][idx]
    ensures var c := Candidates(movies, sim, query, topN).value;
            exists k :: 0 <= k < |c| && c[k].index == LookupRow(movies, query).value
  {
    var idx := LookupRow(movies, query).value;
    var row := sim[idx];
    var ranked := RankRow(row);
    var c := Candidates(movies, sim, query, topN).value;
    RankingHead(ranked, row);
    RankingEntries(ranked, row);
    assert ranked[0].index != idx;
    var p :| 0 <= p < |ranked| && ranked[p] == Scored(idx, row[idx]);
    assert p >= 1;
    CandidatesFromRanking(movies, sim, query, topN, ranked);
    assert |c| == |movies| - 1;
    assert c[p - 1] == ranked[1..|c| + 1][p - 1] == ranked[p];
  }

  lemma ExampleLookup(movies: seq<Movie>)
    requires |movies| == 2 && movies[0].title == "A" && movies[1].title == "B"
    ensures LookupRow(movies, "b") == Some(1)
  {
    assert Lower("A") == "a" && Lower("B") == "b" && Lower("b") == "b";
    assert Lower(movies[1].title) == Lower("b");
    assert Lower(movies[0].title) != Lower("b");
  }

  /** Two movies with the same text (similarity 1.0 each way): asking for the second recommends the second itself. */
  lemma SelfReturnedExample()
    ensures var movies := [Movie("action", "action", "action", "A", "action action action", "action action action"),
                           Movie("action", "action", "action", "B", "action action action", "action action action")];
            var sim := [[1.0, 1.0], [1.0, 1.0]];
            RecommendMovies(movies, sim, "b", 5) == Some([Recommendation(1, "B", 1.0)])
  {
    var movies := [Movie("action", "action", "action", "A", "action action action", "action action action"),
                   Movie("action", "action", "action", "B", "action action action", "action action action")];
    SelfReturnedOnPair(movies, [[1.0, 1.0], [1.0, 1.0]]);
  }

  lemma SelfReturnedOnPair(movies: seq<Movie>, sim: seq<seq<real>>)
    requires |movies| == 2 && movies[0].title == "A" && movies[1].title == "B"
    requires sim == [[1.0, 1.0], [1.0, 1.0]]
    ensures RecommendMovies(movies, sim, "b", 5) == Some([Recommendation(1, "B", 1.0)])
  {
    ExampleLookup(movies);
    var ys := [Scored(0, 1.0), Scored(1, 1.0)];
    ExampleRanking(sim[1], ys);
    RecommendFromRanking(movies, sim, "b", 5, ys);
    assert RecommendMovies(movies, sim, "b", 5).Some?;
    var r := RecommendMovies(movies, sim, "b", 5).value;
    assert |r| == SliceCount(2, 5) == 1;
    assert ys[1].index == 1;
    assert r[0] == Recommendation(1, movies[1].title, 1.0);
    assert r == [Recommendation(1, "B", 1.0)];
  }

  lemma ExampleRanking(row: seq<real>, ys: seq<Scored>)
    requires row == [1.0, 1.0] && ys == [Scored(0, 1.0), Scored(1, 1.0)]
    ensures IsRanking(ys, row)
  {
    assert ys == Enumerate(row);
  }

  /** The row index a corrected query leaves out. */
  function NotRow(idx: nat): Scored -> bool {
    (e: Scored) => e.index != idx
  }

  /** Removing the one entry of a given index from a ranking that holds it exactly once. */
  lemma RemoveOnce(ys: seq<Scored>, p: nat)
    requires p < |ys|
    requires forall k :: 0 <= k < |ys| && k != p ==> ys[k].index != ys[p].index
    ensures Filter(ys, NotRow(ys[p].index)) == ys[..p] + ys[p + 1..]
  {
    FilterDropOne(ys, NotRow(ys[p].index), p);
  }

  /** A ranking with one row left out keeps every other column once. */
  lemma WithoutRow(ys: seq<Scored>, row: seq<real>, idx: nat)
    requires IsRanking(ys, row) && idx < |row|
    ensures |Filter(ys, NotRow(idx))| == |row| - 1
    ensures forall k :: 0 <= k < |Filter(ys, NotRow(idx))| ==>
              Filter(ys, NotRow(idx))[k].index < |row| && Filter(ys, NotRow(idx))[k].index != idx
  {
    RankingEntries(ys, row);
    var p :| 0 <= p < |ys| && ys[p] == Scored(idx, row[idx]);
    RemoveOnce(ys, p);
    var f := Filter(ys, NotRow(idx));
    forall k | 0 <= k < |f| ensures f[k].index < |row| && f[k].index != idx {
      assert f[k] in ys && NotRow(idx)(f[k]);
    }
  }

  /** Selecting entries in order from a strictly ranked sequence keeps it strictly ranked. */
  lemma FilterRanked(ys: seq<Scored>, p: Scored -> bool)
    requires StrictlyRanked(ys)
    ensures StrictlyRanked(Filter(ys, p))
  {
    FilterIsSelection(ys, p);
    var f, ps := Filter(ys, p), Positions(ys, p);
    forall i, j | 0 <= i < j < |f| ensures Precedes(f[i], f[j]) {
      assert f[i] == ys[ps[i]] && f[j] == ys[ps[j]] && ps[i] < ps[j];
    }
  }

  /** A slice of a strictly ranked sequence is strictly ranked. */
  lemma SliceRanked(ys: seq<Scored>, lo: int, hi: int)
    requires StrictlyRanked(ys)
    ensures StrictlyRanked(PySlice(ys, lo, hi))
  {
    var a, c := SliceBound(lo, |ys|), PySlice(ys, lo, hi);
    forall i, j | 0 <= i < j < |c| ensures Precedes(c[i], c[j]) {
      assert c[i] == ys[a + i] && c[j] == ys[a + j];
    }
  }

  /**
   The ranking of a row without one of its columns, cut to `[:top_n]`: each
   entry is another column paired with its score, and the entries stay
   strictly ranked.
   */
  lemma ExcludedEntries(ys: seq<Scored>, row: seq<real>, idx: nat, topN: int)
    requires IsRanking(ys, row) && idx < |row|
    ensures var c := PySlice(Filter(ys, NotRow(idx)), 0, topN);
            && (topN >= 0 ==> |c| == Min(topN, |row| - 1))
            && (forall k :: 0 <= k < |c| ==> c[k].index < |row| && c[k].index != idx && c[k].score == row[c[k].index])
            && StrictlyRanked(c)
  {
    WithoutRow(ys, row, idx);
    RankingEntries(ys, row);
    var f := Filter(ys, NotRow(idx));
    FilterRanked(ys, NotRow(idx));
    SliceRanked(f, 0, topN);
    forall k | 0 <= k < |f| ensures f[k].score == row[f[k].index] {
      assert f[k] in ys;
    }
  }

  /**
   The evidently intended candidates: the ranking of the looked-up row
   without the looked-up row itself, cut to the first `top_n` (`[:top_n]`).
   */
  function CandidatesExcludingSelf(movies: seq<Movie>, sim: seq<seq<real>>, query: string, topN: int)
    : (r: Option<seq<Scored>>)
    requires MatchedPair(movies, sim)
    ensures r.None? <==> LookupRow(movies, query).None?
    ensures r.Some? ==> var idx := LookupRow(movies, query).value;
              forall k :: 0 <= k < |r.value| ==>
                && r.value[k].index < |movies| && r.value[k].index != idx
                && r.value[k].score == sim[idx][r.value[k].index]
    ensures r.Some? ==> StrictlyRanked(r.value)
    ensures r.Some? && topN >= 0 ==> |r.value| == Min(topN, |movies| - 1)
  {
    match LookupRow(movies, query)
    case None => None
    case Some(idx) =>
      var ranked := RankRow(sim[idx]);
      ExcludedEntries(ranked, sim[idx], idx, topN);
      Some(PySlice(Filter(ranked, NotRow(idx)), 0, topN))
  }

  /** The corrected candidates are `[:top_n]` of any ranking of the looked-up row with that row taken out. */
  lemma ExcludingSelfFromRanking(movies: seq<Movie>, sim: seq<seq<real>>, query: string, topN: int, ys: seq<Scored>)
    requires MatchedPair(movies, sim)
    requires LookupRow(movies, query).Some?
    requires IsRanking(ys, sim[LookupRow(movies, query).value])
    ensures CandidatesExcludingSelf(movies, sim, query, topN).value
              == PySlice(Filter(ys, NotRow(LookupRow(movies, query).value)), 0, topN)
  {
    RankRowIsTheRanking(ys, sim[LookupRow(movies, query).value]);
  }

  /**
   The corrected candidates are the best of the other rows: for a
   non-negative `top_n`, every other row left out ranks after every
   candidate.
   */
  lemma ExcludingSelfIsTop(movies: seq<Movie>, sim: seq<seq<real>>, query: string, topN: int, j: nat)
    requires MatchedPair(movies, sim)
    requires topN >= 0
    requires LookupRow(movies, query).Some?
    requires j < |movies| && j != LookupRow(movies, query).value
    requires var c := CandidatesExcludingSelf(movies, sim, query, topN).value;
             forall k :: 0 <= k < |c| ==> c[k].index != j
    ensures var c := CandidatesExcludingSelf(movies, sim, query, topN).value;
            var idx := LookupRow(movies, query).value;
            forall k :: 0 <= k < |c| ==> Precedes(c[k], Scored(j, sim[idx][j]))
  {
    var idx := LookupRow(movies, query).value;
    assert CandidatesExcludingSelf(movies, sim, query, topN).value
             == PySlice(Filter(RankRow(sim[idx]), NotRow(idx)), 0, topN);
    ExcludedTop(RankRow(sim[idx]), sim[idx], idx, topN, j);
  }

  /** Every column left out of `[:top_n]` of a ranking without column `idx` ranks after every kept entry. */
  lemma ExcludedTop(ys: seq<Scored>, row: seq<real>, idx: nat, topN: int, j: nat)
    requires IsRanking(ys, row) && topN >= 0 && j < |row| && j != idx
    requires forall k :: 0 <= k < |PySlice(Filter(ys, NotRow(idx)), 0, topN)| ==>
               PySlice(Filter(ys, NotRow(idx)), 0, topN)[k].index != j
    ensures forall k :: 0 <= k < |PySlice(Filter(ys, NotRow(idx)), 0, topN)| ==>
              Precedes(PySlice(Filter(ys, NotRow(idx)), 0, topN)[k], Scored(j, row[j]))
  {
    var f := Filter(ys, NotRow(idx));
    RankingEntries(ys, row);
    FilterRanked(ys, NotRow(idx));
    var e := Scored(j, row[j]);
    var i :| 0 <= i < |ys| && ys[i] == e;
    assert NotRow(idx)(ys[i]);
    assert e in f;
    PrefixPrecedes(f, topN, e);
  }

  /** In a strictly ranked sequence, every entry of the prefix `[:top_n]` precedes an entry left out of it. */
  lemma PrefixPrecedes(f: seq<Scored>, topN: int, e: Scored)
    requires StrictlyRanked(f) && topN >= 0 && e in f
    requires forall k :: 0 <= k < |PySlice(f, 0, topN)| ==> PySlice(f, 0, topN)[k].index != e.index
    ensures forall k :: 0 <= k < |PySlice(f, 0, topN)| ==> Precedes(PySlice(f, 0, topN)[k], e)
  {
    var c := PySlice(f, 0, topN);
    var q :| 0 <= q < |f| && f[q] == e;
    assert q >= |c|;
    forall k | 0 <= k < |c| ensures Precedes(c[k], e) {
      assert c[k] == f[k];
    }
  }

  /** The corrected query: the same answer shape, built from the corrected candidates. */
  function RecommendMoviesExcludingSelf(movies: seq<Movie>, sim: seq<seq<real>>, query: string, topN: int)
    : (r: Option<seq<Recommendation>>)
    requires MatchedPair(movies, sim)
    ensures r.None? <==> forall i :: 0 <= i < |movies| ==> Lower(movies[i].title) != Lower(query)
    ensures r.Some? && topN >= 0 ==> |r.value| == Min(topN, |movies| - 1)
    ensures r.Some? ==> forall k :: 0 <= k < |r.value| ==> r.value[k].rank == k + 1
    ensures r.Some? ==> forall k, l :: 0 <= k < l < |r.value| ==> r.value[k].similarity >= r.value[l].similarity
  {
    match CandidatesExcludingSelf(movies, sim, query, topN)
    case None => None
    case Some(c) =>
      assert StrictlyRanked(c);
      Some(ToRecommendations(movies, c))
  }

  /**
   Line `k` of the corrected answer is entry `k` of any ranking of the
   looked-up row with that row taken out: its title and its score, ranked
   `k + 1`.
   */
  lemma RecommendExcludingSelfFromRanking(movies: seq<Movie>, sim: seq<seq<real>>, query: string, topN: int, ys: seq<Scored>)
    requires MatchedPair(movies, sim)
    requires LookupRow(movies, query).Some?
    requires IsRanking(ys, sim[LookupRow(movies, query).value])
    ensures var r := RecommendMoviesExcludingSelf(movies, sim, query, topN).value;
            var f := Filter(ys, NotRow(LookupRow(movies, query).value));
            forall k :: 0 <= k < |r| ==>
              && k < |f| && f[k].index < |movies|
              && r[k] == Recommendation(k + 1, movies[f[k].index].title, f[k].score)
  {
    var idx := LookupRow(movies, query).value;
    var f := Filter(ys, NotRow(idx));
    var c := CandidatesExcludingSelf(movies, sim, query, topN).value;
    ExcludingSelfFromRanking(movies, sim, query, topN, ys);
    assert c == PySlice(f, 0, topN);
    forall k | 0 <= k < |c| ensures k < |f| && c[k] == f[k] {
    }
  }

  /** For a non-negative `top_n`, `[1 : top_n + 1]` of a sequence is `[:top_n]` of its tail. */
  lemma SliceOfTail<T>(ys: seq<T>, topN: int)
    requires ys != [] && topN >= 0
    ensures PySlice(ys[1..], 0, topN) == PySlice(ys, 1, topN + 1)
  {
    var a, b := PySlice(ys[1..], 0, topN), PySlice(ys, 1, topN + 1);
    assert |a| == |b|;
    forall k | 0 <= k < |a| ensures a[k] == b[k] {
      assert a[k] == ys[1..][k];
    }
  }

  /** Where the query's self-score is strictly highest, the as-written and the corrected candidates agree. */
  lemma CorrectedAgreesOnStrictMax(movies: seq<Movie>, sim: seq<seq<real>>, query: string, topN: int)
    requires MatchedPair(movies, sim)
    requires topN >= 0
    requires LookupRow(movies, query).Some?
    requires var idx := LookupRow(movies, query).value;
             forall j :: 0 <= j < |movies| && j != idx ==> sim[idx][j] < sim[idx][idx]
    ensures CandidatesExcludingSelf(movies, sim, query, topN) == Candidates(movies, sim, query, topN)
  {
    var idx := LookupRow(movies, query).value;
    var ranked := RankRow(sim[idx]);
    RankingHead(ranked, sim[idx]);
    RankingEntries(ranked, sim[idx]);
    assert ranked[0].index == idx;
    RemoveOnce(ranked, 0);
    assert Filter(ranked, NotRow(idx)) == ranked[1..];
    SliceOfTail(ranked, topN);
  }

  /** Where the query's self-score is strictly highest, the as-written and the corrected query give the same answer. */
  lemma CorrectedRecommendAgrees(movies: seq<Movie>, sim: seq<seq<real>>, query: string, topN: int)
    requires MatchedPair(movies, sim)
    requires topN >= 0
    requires LookupRow(movies, query).Some?
    requires var idx := LookupRow(movies, query).value;
             forall j :: 0 <= j < |movies| && j != idx ==> sim[idx][j] < sim[idx][idx]
    ensures RecommendMoviesExcludingSelf(movies, sim, query, topN) == RecommendMovies(movies, sim, query, topN)
  {
    CorrectedAgreesOnStrictMax(movies, sim, query, topN);
  }
}
