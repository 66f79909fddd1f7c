/** An exact inner-product index in the manner of faiss `IndexFlatIP`:
    vectors are stored in the order they are added, and a search scores
    every stored vector against the query and returns the best positions. */
module SimilarityIndex {
  import opened Selection

  /** The inner-product score of each vector against the query. */
  function Scores<E>(vectors: seq<E>, query: E, ip: (E, E) -> int): (s: seq<int>)
    ensures |s| == |vectors|
    ensures forall i :: 0 <= i < |s| ==> s[i] == ip(query, vectors[i])
  {
    seq(|vectors|, i requires 0 <= i < |vectors| => ip(query, vectors[i]))
  }

  class FlatIndex<E> {
    /** The stored vectors; position i is the i-th vector added. */
    var vectors: seq<E>
    /** The inner product of the embedding space. */
    const ip: (E, E) -> int

    constructor (ip: (E, E) -> int)
      ensures vectors == [] && this.ip == ip
    {
      this.ip := ip;
      vectors := [];
    }

    /** Appends `xs`; earlier positions keep their vectors. */
    method Add(xs: seq<E>)
      modifies this
      ensures vectors == old(vectors) + xs
    {
      vectors := vectors + xs;
    }

    /** The `k` positions with the highest inner product against `query`,
        best first, ties by lower position. */
    method Search(query: E, k: nat) returns (positions: seq<nat>)
      requires 0 < k <= |vectors|
      ensures IsRanking(positions, Scores(vectors, query, ip), k)
      ensures positions == Rank(Scores(vectors, query, ip), k)
    {
      var scores := Scores(vectors, query, ip);
      var keys := Negate(scores);
      var order: seq<nat> := [];
      var i := 0;
      while i < |vectors|
        invariant i <= |vectors|
        invariant order == SortIndices(keys, i)
      {
        order := Insert(order, keys, i);
        i := i + 1;
      }
      positions := order[..k];
      RankIsRanking(scores, k);
    }
  }
}
