/**
 Ranking one row of the similarity matrix: `list(enumerate(row))` sorted by
 score in descending order with Python's stable `sorted(..., reverse=True)`,
 which keeps entries of equal score in their original order.
 */
module Ranking {

  /** One `(index, score)` pair of an enumerated similarity row. */
  datatype Scored = Scored(index: nat, score: real)

  /** `list(enumerate(row))`. */
  function Enumerate(row: seq<real>): (r: seq<Scored>)
    ensures |r| == |row|
    ensures forall i :: 0 <= i < |r| ==> r[i].index == i && r[i].score == row[i]
  {
    seq(|row|, i requires 0 <= i < |row| => Scored(i, row[i]))
  }

  /**
   The enumeration holds exactly the pairs of a column and its score, in
   column order, and dropping the indices gives back the row.
   */
  lemma EnumerateUnzip(row: seq<real>)
    ensures seq(|Enumerate(row)|, k requires 0 <= k < |Enumerate(row)| => Enumerate(row)[k].score) == row
    ensures IndicesIncreasing(Enumerate(row))
    ensures forall e: Scored :: e in Enumerate(row) <==> e.index < |row| && e.score == row[e.index]
  {
    var en := Enumerate(row);
    forall e: Scored | e.index < |row| && e.score == row[e.index] ensures e in en {
      assert en[e.index] == e;
    }
  }

  predicate IndicesIncreasing(s: seq<Scored>) {
    forall i, j :: 0 <= i < j < |s| ==> s[i].index < s[j].index
  }

  predicate NonIncreasing(s: seq<Scored>) {
    forall i, j :: 0 <= i < j < |s| ==> s[i].score >= s[j].score
  }

  /** The order a stable descending sort produces from input in increasing index order: higher score first, then lower index. */
  predicate Precedes(a: Scored, b: Scored) {
    a.score > b.score || (a.score == b.score && a.index < b.index)
  }

  /** Scores never increase, and entries of equal score appear in increasing index order. */
  predicate StrictlyRanked(s: seq<Scored>) {
    forall i, j :: 0 <= i < j < |s| ==> Precedes(s[i], s[j])
  }

  /** A ranking of a row: a rearrangement of its enumeration, strictly ranked. */
  predicate IsRanking(ys: seq<Scored>, row: seq<real>) {
    multiset(ys) == multiset(Enumerate(row)) && StrictlyRanked(ys)
  }

  /** Inserts `x` ahead of every entry whose score it does not fall below: the step of a stable descending sort. */
  function Insert(x: Scored, s: seq<Scored>): (r: seq<Scored>)
    ensures |r| == |s| + 1
    ensures multiset(r) == multiset(s) + multiset{x}
    ensures forall k :: 0 <= k < |r| ==> r[k] == x || r[k] in s
  {
    if s == [] || x.score >= s[0].score then [x] + s
    else
      var rest := Insert(x, s[1..]);
      assert s == [s[0]] + s[1..];
      [s[0]] + rest
  }

  lemma {:induction false} InsertNonIncreasing(x: Scored, s: seq<Scored>)
    requires NonIncreasing(s)
    ensures NonIncreasing(Insert(x, s))
  {
    if s != [] && x.score < s[0].score {
      InsertNonIncreasing(x, s[1..]);
    }
  }

  /** Inserting an entry whose index is below every index present keeps a strictly ranked sequence strictly ranked. */
  lemma {:induction false} InsertStrictlyRanked(x: Scored, s: seq<Scored>)
    requires StrictlyRanked(s)
    requires forall k :: 0 <= k < |s| ==> x.index < s[k].index
    ensures StrictlyRanked(Insert(x, s))
  {
    if s != [] && x.score < s[0].score {
      InsertStrictlyRanked(x, s[1..]);
    }
  }

  /** `sorted(xs, key=lambda e: e[1], reverse=True)`. */
  function SortByScoreDesc(xs: seq<Scored>): (r: seq<Scored>)
    ensures |r| == |xs|
    ensures multiset(r) == multiset(xs)
    ensures NonIncreasing(r)
    ensures IndicesIncreasing(xs) ==> StrictlyRanked(r)
  {
    if xs == [] then []
    else
      var rest := SortByScoreDesc(xs[1..]);
      assert xs == [xs[0]] + xs[1..];
      LaterIndices(xs, rest);
      InsertNonIncreasing(xs[0], rest);
      SortStep(xs, rest);
      Insert(xs[0], rest)
  }

  lemma SortStep(xs: seq<Scored>, rest: seq<Scored>)
    requires xs != []
    requires multiset(rest) == multiset(xs[1..])
    requires IndicesIncreasing(xs[1..]) ==> StrictlyRanked(rest)
    ensures IndicesIncreasing(xs) ==> StrictlyRanked(Insert(xs[0], rest))
  {
    if IndicesIncreasing(xs) {
      LaterIndices(xs, rest);
      InsertStrictlyRanked(xs[0], rest);
    }
  }

  /** Every entry of a rearrangement of `xs[1..]` has a larger index than `xs[0]` when `xs` is in index order. */
  lemma LaterIndices(xs: seq<Scored>, rest: seq<Scored>)
    requires xs != []
    requires multiset(rest) == multiset(xs[1..])
    ensures IndicesIncreasing(xs) ==> forall k :: 0 <= k < |rest| ==> xs[0].index < rest[k].index
  {
    forall k | 0 <= k < |rest| && IndicesIncreasing(xs) ensures xs[0].index < rest[k].index {
      assert rest[k] in multiset(xs[1..]);
      var j :| 0 <= j < |xs[1..]| && xs[1..][j] == rest[k];
      assert xs[j + 1] == rest[k];
    }
  }

  /** The row ranked as the query does it. */
  function RankRow(row: seq<real>): (ys: seq<Scored>)
    ensures IsRanking(ys, row)
  {
    SortByScoreDesc(Enumerate(row))
  }

  /** A ranking of a row has one entry per column: distinct indices, each paired with that column's score. */
  lemma RankingEntries(ys: seq<Scored>, row: seq<real>)
    requires IsRanking(ys, row)
    ensures |ys| == |row|
    ensures forall k :: 0 <= k < |ys| ==> ys[k].index < |row| && ys[k].score == row[ys[k].index]
    ensures forall k, l :: 0 <= k < l < |ys| ==> ys[k].index != ys[l].index
    ensures forall i :: 0 <= i < |row| ==> Scored(i, row[i]) in ys
  {
    var e := Enumerate(row);
    assert |ys| == |multiset(ys)| == |multiset(e)| == |row|;
    forall k | 0 <= k < |ys| ensures ys[k].index < |row| && ys[k].score == row[ys[k].index] {
      assert ys[k] in multiset(e);
    }
    forall i | 0 <= i < |row| ensures Scored(i, row[i]) in ys {
      assert e[i] in multiset(ys);
    }
  }

  /** Two strictly ranked rearrangements of the same entries start with the same entry. */
  lemma SameHead(a: seq<Scored>, b: seq<Scored>)
    requires multiset(a) == multiset(b) && a != []
    requires StrictlyRanked(a) && StrictlyRanked(b)
    ensures b != [] && a[0] == b[0]
  {
    assert a[0] in multiset(b);
    var j :| 0 <= j < |b| && b[j] == a[0];
    assert b[0] in multiset(a);
    var i :| 0 <= i < |a| && a[i] == b[0];
  }

  lemma TailMultiset(a: seq<Scored>)
    requires a != []
    ensures multiset(a[1..]) == multiset(a) - multiset{a[0]}
  {
    assert a == [a[0]] + a[1..];
  }

  /** A strictly ranked sequence is determined by its contents: there is exactly one ranking of a row. */
  lemma {:induction false} RankingUnique(a: seq<Scored>, b: seq<Scored>)
    requires multiset(a) == multiset(b)
    requires StrictlyRanked(a) && StrictlyRanked(b)
    ensures a == b
  {
    if a == [] {
      assert |b| == |multiset(b)| == 0;
    } else {
      SameHead(a, b);
      TailMultiset(a);
      TailMultiset(b);
      RankingUnique(a[1..], b[1..]);
      assert a == [a[0]] + a[1..] && b == [b[0]] + b[1..];
    }
  }

  /** Whatever sorting procedure produced it, any ranking of a row equals the one the query computes. */
  lemma RankRowIsTheRanking(ys: seq<Scored>, row: seq<real>)
    requires IsRanking(ys, row)
    ensures RankRow(row) == ys
  {
    RankingUnique(RankRow(row), ys);
  }

  /** The head of a ranking is the entry of highest score, the lowest index among equal highest scores. */
  lemma RankingHead(ys: seq<Scored>, row: seq<real>)
    requires IsRanking(ys, row) && |row| > 0
    ensures |ys| > 0 && ys[0].index < |row|
    ensures forall i :: 0 <= i < |row| ==> row[i] <= ys[0].score
    ensures forall i :: 0 <= i < ys[0].index ==> row[i] < ys[0].score
  {
    RankingEntries(ys, row);
    forall i | 0 <= i < |row| ensures row[i] <= ys[0].score && (i < ys[0].index ==> row[i] < ys[0].score) {
      var k :| 0 <= k < |ys| && ys[k] == Scored(i, row[i]);
      if k > 0 {
        assert Precedes(ys[0], ys[k]);
      }
    }
  }
}
