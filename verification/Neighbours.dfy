/** Choosing the most similar readers (`_similar_readers`,
    backend/app/domains/discovery/service.py): score, sort descending, keep five. */
module Neighbours {
  import opened Prelude
  import opened Sorting
  import opened TasteVectors

  type UserId = nat

  const TOP_N := 5

  datatype Profile = Profile(user: UserId, genres: Vector)

  datatype Scored = Scored(similarity: real, user: UserId)

  /** The other readers with a positive similarity, in table order. */
  function Candidates(me: UserId, profiles: seq<Profile>, similarity: seq<real>): seq<Scored>
    requires |similarity| == |profiles|
  {
    if profiles == [] then []
    else
      var n := |profiles| - 1;
      var front := Candidates(me, profiles[..n], similarity[..n]);
      if profiles[n].user != me && similarity[n] > 0.0 then front + [Scored(similarity[n], profiles[n].user)] else front
  }

  /** `sort(key=similarity, reverse=True)`: descending, ties in table order. */
  function ByDescendingSimilarity(): Scored -> real {
    (x: Scored) => -x.similarity
  }

  function SortedDescending(s: seq<Scored>): seq<Scored> {
    SortedBy(ByDescendingSimilarity(), s)
  }

  /** The scoring loop, the sort and the cut. */
  method TopUsers(me: UserId, profiles: seq<Profile>, similarity: seq<real>) returns (top: seq<Scored>)
    requires |similarity| == |profiles|
    ensures top == Take(SortedDescending(Candidates(me, profiles, similarity)), TOP_N)
  {
    var scored: seq<Scored> := [];
    var i := 0;
    while i < |profiles|
      invariant i <= |profiles|
      invariant scored == Candidates(me, profiles[..i], similarity[..i])
    {
      assert profiles[..i + 1][..i] == profiles[..i] && similarity[..i + 1][..i] == similarity[..i];
      if profiles[i].user != me {
        if similarity[i] > 0.0 {
          scored := scored + [Scored(similarity[i], profiles[i].user)];
        }
      }
      i := i + 1;
    }
    assert profiles[..|profiles|] == profiles && similarity[..|similarity|] == similarity;
    top := Take(SortedDescending(scored), TOP_N);
  }

  // ---------- who is chosen ----------

  lemma {:induction false} CandidatesMeaning(me: UserId, profiles: seq<Profile>, similarity: seq<real>, x: Scored)
    requires |similarity| == |profiles|
    ensures x in Candidates(me, profiles, similarity) <==>
            x.user != me && x.similarity > 0.0 &&
            exists i :: 0 <= i < |profiles| && profiles[i].user == x.user && similarity[i] == x.similarity
  {
    if profiles != [] {
      var n := |profiles| - 1;
      CandidatesMeaning(me, profiles[..n], similarity[..n], x);
      if i :| 0 <= i < |profiles| && profiles[i].user == x.user && similarity[i] == x.similarity {
        if i < n {
          assert profiles[..n][i].user == x.user && similarity[..n][i] == x.similarity;
        }
      }
    }
  }

  /** Everyone chosen is another reader with a positive similarity; any other
      reader with a positive similarity is chosen too, or five readers at least as
      similar are. */
  lemma ChosenAreTheMostSimilar(me: UserId, profiles: seq<Profile>, similarity: seq<real>, x: Scored)
    requires |similarity| == |profiles|
    ensures var top := Take(SortedDescending(Candidates(me, profiles, similarity)), TOP_N);
            && |top| <= TOP_N
            && (x in top ==> x in Candidates(me, profiles, similarity) && x.user != me && x.similarity > 0.0)
            && (x in Candidates(me, profiles, similarity) && x !in top ==>
                  |top| == 5 && forall y :: y in top ==> y.similarity >= x.similarity)
            && (forall p, q :: 0 <= p < q < |top| ==> top[p].similarity >= top[q].similarity)
  {
    var candidates := Candidates(me, profiles, similarity);
    var sorted := SortedDescending(candidates);
    var top := Take(sorted, TOP_N);
    SortIsStable(ByDescendingSimilarity(), candidates, 0.0);
    CandidatesMeaning(me, profiles, similarity, x);
    forall p, q | 0 <= p < q < |top|
      ensures top[p].similarity >= top[q].similarity
    {
      assert ByDescendingSimilarity()(sorted[p]) <= ByDescendingSimilarity()(sorted[q]);
    }
    assert x in sorted <==> x in multiset(sorted);
    assert x in candidates <==> x in multiset(candidates);
    if x in candidates && x !in top {
      CutKeepsSmallest(ByDescendingSimilarity(), sorted, TOP_N, x);
      forall y | y in top
        ensures y.similarity >= x.similarity
      {
        assert ByDescendingSimilarity()(y) <= ByDescendingSimilarity()(x);
      }
    }
  }

  /** All similarities are those of `cosine_similarity` between my vector and the profiles'. */
  ghost predicate Computed(mine: Vector, magMine: real, profiles: seq<Profile>, mags: seq<real>, similarity: seq<real>) {
    && |similarity| == |profiles| == |mags| && IsRoot(magMine, SquaredNorm(mine))
    && forall i :: 0 <= i < |profiles| ==>
         IsRoot(mags[i], SquaredNorm(profiles[i].genres)) &&
         similarity[i] == CosineSimilarity(mine, profiles[i].genres, magMine, mags[i])
  }

  lemma CrossedQuotients(m: real, n: real, w: real, x: real, y: real, d: real, e: real)
    requires m >= 0.0 && n >= 0.0 && w > 0.0 && x <= y && x * (w * m) == d && y * (w * n) == e
    ensures d * n <= e * m
  {
    var f := w * m * n;
    assert f >= 0.0 by {
      assert w * m >= 0.0;
    }
    assert d * n == x * f && e * m == y * f;
    assert (y - x) * f >= 0.0;
  }

  /** Profile `j` is at least as close to mine as profile `i`, product against length. */
  ghost predicate NoCloser(mine: Vector, profiles: seq<Profile>, mags: seq<real>, i: nat, j: nat)
    requires i < |profiles| == |mags| && j < |profiles|
  {
    Dot(mine, profiles[i].genres) as real * mags[j] <= Dot(mine, profiles[j].genres) as real * mags[i]
  }

  lemma ScoreTimesLengths(mine: Vector, magMine: real, profiles: seq<Profile>, mags: seq<real>, similarity: seq<real>, i: nat)
    requires Computed(mine, magMine, profiles, mags, similarity) && i < |profiles|
    ensures similarity[i] * (magMine * mags[i]) == Dot(mine, profiles[i].genres) as real && mags[i] >= 0.0
  {
    SimilarityIsTheQuotient(mine, profiles[i].genres, magMine, mags[i]);
  }

  lemma ScoresCompare(mine: Vector, magMine: real, profiles: seq<Profile>, mags: seq<real>, similarity: seq<real>, i: nat, j: nat)
    requires Computed(mine, magMine, profiles, mags, similarity) && magMine > 0.0
    requires i < |profiles| && j < |profiles| && similarity[i] <= similarity[j]
    ensures NoCloser(mine, profiles, mags, i, j)
  {
    ScoreTimesLengths(mine, magMine, profiles, mags, similarity, i);
    ScoreTimesLengths(mine, magMine, profiles, mags, similarity, j);
    CrossedQuotients(mags[i], mags[j], magMine, similarity[i], similarity[j],
                     Dot(mine, profiles[i].genres) as real, Dot(mine, profiles[j].genres) as real);
  }

  lemma PositiveScore(mine: Vector, theirs: Vector, m: real, n: real)
    requires IsRoot(m, SquaredNorm(mine)) && IsRoot(n, SquaredNorm(theirs)) && Dot(mine, theirs) > 0
    ensures CosineSimilarity(mine, theirs, m, n) > 0.0 && m > 0.0
  {
    SimilarityIsTheQuotient(mine, theirs, m, n);
    PositiveFactors(CosineSimilarity(mine, theirs, m, n), m, n, Dot(mine, theirs) as real);
  }

  lemma PositiveFactors(x: real, m: real, n: real, d: real)
    requires m >= 0.0 && n >= 0.0 && x * (m * n) == d && d > 0.0
    ensures x > 0.0 && m > 0.0
  {
    var w := m * n;
    assert w >= 0.0 && x * w > 0.0;
  }

  /** In terms of the vectors: whoever shares a positive product with me and is left out has,
      relative to the length of the vector, no larger a product than five who are in. */
  lemma LeftOutReadersAreNoCloser(me: UserId, mine: Vector, magMine: real, profiles: seq<Profile>, mags: seq<real>,
                                  similarity: seq<real>, i: nat)
    requires Computed(mine, magMine, profiles, mags, similarity)
    requires i < |profiles| && profiles[i].user != me && Dot(mine, profiles[i].genres) > 0
    requires Scored(similarity[i], profiles[i].user) !in Take(SortedDescending(Candidates(me, profiles, similarity)), TOP_N)
    ensures var top := Take(SortedDescending(Candidates(me, profiles, similarity)), TOP_N);
            |top| == 5 && forall y :: y in top ==>
              exists j :: 0 <= j < |profiles| && profiles[j].user == y.user && similarity[j] == y.similarity &&
                          NoCloser(mine, profiles, mags, i, j)
  {
    var x := Scored(similarity[i], profiles[i].user);
    var top := Take(SortedDescending(Candidates(me, profiles, similarity)), TOP_N);
    PositiveScore(mine, profiles[i].genres, magMine, mags[i]);
    CandidatesMeaning(me, profiles, similarity, x);
    ChosenAreTheMostSimilar(me, profiles, similarity, x);
    forall y | y in top
      ensures exists j :: 0 <= j < |profiles| && profiles[j].user == y.user && similarity[j] == y.similarity &&
                          NoCloser(mine, profiles, mags, i, j)
    {
      ChosenAreTheMostSimilar(me, profiles, similarity, y);
      CandidatesMeaning(me, profiles, similarity, y);
      var j :| 0 <= j < |profiles| && profiles[j].user == y.user && similarity[j] == y.similarity;
      ScoresCompare(mine, magMine, profiles, mags, similarity, i, j);
    }
  }

  /** With similarities as `cosine_similarity` computes them on tallied vectors, a
      reader can be chosen only for a genre token in common, and with at most five
      such readers all of them are chosen. */
  lemma ChosenShareAGenre(me: UserId, mine: Vector, magMine: real, profiles: seq<Profile>, mags: seq<real>,
                          similarity: seq<real>, i: nat)
    requires |similarity| == |profiles| == |mags| && i < |profiles| && profiles[i].user != me
    requires Counts(mine) && IsRoot(magMine, SquaredNorm(mine))
    requires Counts(profiles[i].genres) && IsRoot(mags[i], SquaredNorm(profiles[i].genres))
    requires similarity[i] == CosineSimilarity(mine, profiles[i].genres, magMine, mags[i])
    ensures Scored(similarity[i], profiles[i].user) in Candidates(me, profiles, similarity) <==>
            exists k :: k in mine && k in profiles[i].genres
    ensures |Candidates(me, profiles, similarity)| <= TOP_N && (exists k :: k in mine && k in profiles[i].genres) ==>
              Scored(similarity[i], profiles[i].user) in
              Take(SortedDescending(Candidates(me, profiles, similarity)), TOP_N)
  {
    var x := Scored(similarity[i], profiles[i].user);
    CandidatesMeaning(me, profiles, similarity, x);
    PositiveIffShared(mine, profiles[i].genres, magMine, mags[i]);
    var candidates := Candidates(me, profiles, similarity);
    SortIsStable(ByDescendingSimilarity(), candidates, 0.0);
    assert |multiset(SortedDescending(candidates))| == |multiset(candidates)|;
    assert x in multiset(SortedDescending(candidates)) <==> x in multiset(candidates);
  }
}
