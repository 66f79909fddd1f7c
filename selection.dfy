/** Orders of catalog indices by score: the argsort used by the lexical
    pre-filter, the Python slice that keeps its last entries, and the
    descending ranking returned by an exact inner-product search. */
module Selection {

  function Min(a: int, b: int): int {
    if a <= b then a else b
  }

  /** No index is listed twice. */
  ghost predicate Distinct(s: seq<nat>) {
    forall i, j :: 0 <= i < j < |s| ==> s[i] != s[j]
  }

  /** Every listed index is a position of `keys`. */
  ghost predicate InRange(s: seq<nat>, n: nat) {
    forall i :: 0 <= i < |s| ==> s[i] < n
  }

  /** `order` lists each of 0..n-1 exactly once. */
  ghost predicate IsIndexPermutation(order: seq<nat>, n: nat) {
    && |order| == n
    && InRange(order, n)
    && Distinct(order)
    && (forall x :: 0 <= x < n ==> x in order)
  }

  /** Keys never decrease along `order`. */
  ghost predicate SortedBy(order: seq<nat>, keys: seq<int>)
    requires InRange(order, |keys|)
  {
    forall i, j :: 0 <= i < j < |order| ==> keys[order[i]] <= keys[order[j]]
  }

  /** Among equal keys, lower indices come first. */
  ghost predicate TiesByIndex(order: seq<nat>, keys: seq<int>)
    requires InRange(order, |keys|)
  {
    forall i, j :: 0 <= i < j < |order| && keys[order[i]] == keys[order[j]] ==> order[i] < order[j]
  }

  /** What `numpy.argsort` promises: a permutation of the positions of
      `keys` along which the keys are ascending. Tie order is left open. */
  ghost predicate IsArgsort(order: seq<nat>, keys: seq<int>) {
    IsIndexPermutation(order, |keys|) && SortedBy(order, keys)
  }

  /** Inserts index `k` after every listed index whose key is at most
      `keys[k]`. */
  function Insert(order: seq<nat>, keys: seq<int>, k: nat): (r: seq<nat>)
    requires k < |keys| && InRange(order, |keys|)
    ensures |r| == |order| + 1 && InRange(r, |keys|)
    ensures forall x :: x in r <==> x in order || x == k
  {
    if order == [] || keys[k] < keys[order[0]] then [k] + order
    else [order[0]] + Insert(order[1..], keys, k)
  }

  /** Inserting an index not yet listed keeps the indices distinct. */
  lemma {:induction false} InsertDistinct(order: seq<nat>, keys: seq<int>, k: nat)
    requires k < |keys| && InRange(order, |keys|)
    requires Distinct(order) && k !in order
    ensures Distinct(Insert(order, keys, k))
  {
    if !(order == [] || keys[k] < keys[order[0]]) {
      var tail := order[1..];
      InsertDistinct(tail, keys, k);
      var rest := Insert(tail, keys, k);
      assert order[0] !in tail;
      assert order[0] !in rest;
    }
  }

  /** Inserting keeps the keys ascending. */
  lemma {:induction false} InsertSorted(order: seq<nat>, keys: seq<int>, k: nat)
    requires k < |keys| && InRange(order, |keys|)
    requires SortedBy(order, keys)
    ensures SortedBy(Insert(order, keys, k), keys)
  {
    var r := Insert(order, keys, k);
    if !(order == [] || keys[k] < keys[order[0]]) {
      var tail := order[1..];
      InsertSorted(tail, keys, k);
      var rest := Insert(tail, keys, k);
      forall j | 1 <= j < |r| ensures keys[r[0]] <= keys[r[j]] {
        assert r[j] == rest[j - 1] && r[j] in rest;
        if r[j] != k {
          var m :| 0 <= m < |tail| && tail[m] == r[j];
          assert order[m + 1] == r[j];
        }
      }
    }
  }

  /** Inserting an index larger than every listed one keeps equal keys in
      index order. */
  lemma {:induction false} InsertTies(order: seq<nat>, keys: seq<int>, k: nat)
    requires k < |keys| && InRange(order, |keys|)
    requires SortedBy(order, keys) && TiesByIndex(order, keys)
    requires forall i :: 0 <= i < |order| ==> order[i] < k
    ensures TiesByIndex(Insert(order, keys, k), keys)
  {
    var r := Insert(order, keys, k);
    if order == [] || keys[k] < keys[order[0]] {
      forall j | 1 <= j < |r| ensures keys[r[0]] < keys[r[j]] {
        assert r[j] == order[j - 1];
      }
    } else {
      var tail := order[1..];
      InsertTies(tail, keys, k);
      var rest := Insert(tail, keys, k);
      forall j | 1 <= j < |r| && keys[r[0]] == keys[r[j]] ensures r[0] < r[j] {
        assert r[j] == rest[j - 1] && r[j] in rest;
        if r[j] != k {
          var m :| 0 <= m < |tail| && tail[m] == r[j];
          assert order[m + 1] == r[j];
        }
      }
    }
  }

  /** Sorts the indices 0..n-1 by ascending key, keeping ties in index order. */
  function SortIndices(keys: seq<int>, n: nat): (r: seq<nat>)
    requires n <= |keys|
    ensures IsIndexPermutation(r, n) && InRange(r, |keys|)
    ensures SortedBy(r, keys) && TiesByIndex(r, keys)
  {
    if n == 0 then []
    else
      var prev := SortIndices(keys, n - 1);
      InsertDistinct(prev, keys, n - 1);
      InsertSorted(prev, keys, n - 1);
      InsertTies(prev, keys, n - 1);
      var r := Insert(prev, keys, n - 1);
      forall i | 0 <= i < |r| ensures r[i] < n {
        assert r[i] in r;
      }
      r
  }

  /** Every key sequence has an order meeting `numpy.argsort`'s promise:
      the stable one. */
  function Argsort(keys: seq<int>): (order: seq<nat>)
    ensures IsArgsort(order, keys)
  {
    SortIndices(keys, |keys|)
  }

  // ---------------------------------------------------------------------
  // The lexical pre-filter's selection: `numpy.argsort(scores)[-top_n:]`

  /** Start of the Python slice `xs[-t:]` over a sequence of length `n`:
      a negative start counts from the end and is clamped into 0..n. */
  function TailStart(n: nat, t: int): (start: nat)
    ensures start <= n
  {
    var s := -t;
    if s < 0 then (if s + n < 0 then 0 else s + n)
    else if s > n then n
    else s
  }

  /** The slice keeps `min(t, n)` entries for a positive `t`, and all `n`
      of them for `t == 0`, since `xs[-0:]` is `xs[0:]`. */
  lemma TailCount(n: nat, t: int)
    ensures t > 0 ==> n - TailStart(n, t) == Min(t, n)
    ensures t == 0 ==> TailStart(n, t) == 0
    ensures t < 0 ==> n - TailStart(n, t) == n - Min(-t, n)
  {
  }

  /** Any suffix of any argsort of `keys` is a set of distinct valid indices
      in ascending key order, and no index left out has a larger key than
      an index kept. */
  lemma {:induction false} SuffixOfArgsort(order: seq<nat>, keys: seq<int>, s: nat)
    requires IsArgsort(order, keys) && s <= |order|
    ensures var sel := order[s..];
      && |sel| == |keys| - s
      && InRange(sel, |keys|)
      && Distinct(sel)
      && SortedBy(sel, keys)
      && (forall j, x :: 0 <= j < |sel| && 0 <= x < |keys| && x !in sel ==> keys[x] <= keys[sel[j]])
  {
    var sel := order[s..];
    forall i | 0 <= i < |sel| ensures sel[i] < |keys| {
      assert sel[i] == order[s + i];
    }
    forall i, j | 0 <= i < j < |sel| ensures sel[i] != sel[j] && keys[sel[i]] <= keys[sel[j]] {
      assert sel[i] == order[s + i] && sel[j] == order[s + j];
    }
    forall j, x | 0 <= j < |sel| && 0 <= x < |keys| && x !in sel ensures keys[x] <= keys[sel[j]] {
      assert x in order;
      var m :| 0 <= m < |order| && order[m] == x;
      assert sel[j] == order[s + j];
    }
  }

  /** The pre-filter keeps exactly `min(top_n, N)` distinct valid indices for
      a positive `top_n`, listed in ascending score order, and every index
      it drops scores no higher than every index it keeps. These hold for
      every tie order `numpy.argsort` may choose. */
  lemma SelectionOfAnyArgsort(order: seq<nat>, scores: seq<int>, topN: int)
    requires IsArgsort(order, scores)
    ensures var sel := order[TailStart(|scores|, topN)..];
      && (topN > 0 ==> |sel| == Min(topN, |scores|))
      && (topN == 0 ==> |sel| == |scores|)
      && InRange(sel, |scores|)
      && Distinct(sel)
      && SortedBy(sel, scores)
      && (forall j, x :: 0 <= j < |sel| && 0 <= x < |scores| && x !in sel ==> scores[x] <= scores[sel[j]])
  {
    TailCount(|scores|, topN);
    SuffixOfArgsort(order, scores, TailStart(|scores|, topN));
  }

  // ---------------------------------------------------------------------
  // The exact search's ranking: best score first, ties by lower position

  /** Position `a` ranks ahead of position `b`. */
  predicate Ahead(scores: seq<int>, a: nat, b: nat)
    requires a < |scores| && b < |scores|
  {
    scores[a] > scores[b] || (scores[a] == scores[b] && a < b)
  }

  /** `ps` is the top `k` of the positions of `scores`: distinct valid
      positions, each ranked ahead of every later one and of every
      position left out. */
  ghost predicate IsRanking(ps: seq<nat>, scores: seq<int>, k: nat) {
    && |ps| == k
    && InRange(ps, |scores|)
    && Distinct(ps)
    && (forall i, j :: 0 <= i < j < k ==> Ahead(scores, ps[i], ps[j]))
    && (forall j, x :: 0 <= j < k && 0 <= x < |scores| && x !in ps ==> Ahead(scores, ps[j], x))
  }

  function Negate(scores: seq<int>): seq<int> {
    seq(|scores|, i requires 0 <= i < |scores| => -scores[i])
  }

  /** The first `k` positions in descending score order. */
  function Rank(scores: seq<int>, k: nat): seq<nat>
    requires k <= |scores|
  {
    SortIndices(Negate(scores), |scores|)[..k]
  }

  /** `Rank` meets the ranking contract. */
  lemma RankIsRanking(scores: seq<int>, k: nat)
    requires k <= |scores|
    ensures IsRanking(Rank(scores, k), scores, k)
  {
    var neg := Negate(scores);
    var order := SortIndices(neg, |scores|);
    var ps := Rank(scores, k);
    forall i, j | 0 <= i < j < |order| ensures Ahead(scores, order[i], order[j]) {
      assert neg[order[i]] <= neg[order[j]];
    }
    forall i, j | 0 <= i < j < k ensures ps[i] != ps[j] && Ahead(scores, ps[i], ps[j]) {
      assert ps[i] == order[i] && ps[j] == order[j];
    }
    forall j, x | 0 <= j < k && 0 <= x < |scores| && x !in ps ensures Ahead(scores, ps[j], x) {
      assert x in order;
      var m :| 0 <= m < |order| && order[m] == x;
      assert ps[j] == order[j];
    }
  }

  /** The ranking contract determines the result: two rankings of the same
      scores and length are equal, so the search is deterministic. */
  lemma RankingUnique(ps: seq<nat>, qs: seq<nat>, scores: seq<int>, k: nat)
    requires IsRanking(ps, scores, k) && IsRanking(qs, scores, k)
    ensures ps == qs
  {
    forall j | 0 <= j < k ensures ps[j] == qs[j] {
      RankingAgreesAt(ps, qs, scores, k, j);
    }
  }

  lemma {:induction false} RankingAgreesAt(ps: seq<nat>, qs: seq<nat>, scores: seq<int>, k: nat, j: nat)
    requires IsRanking(ps, scores, k) && IsRanking(qs, scores, k) && j < k
    ensures ps[j] == qs[j]
    decreases j
  {
    forall i | 0 <= i < j ensures ps[i] == qs[i] {
      RankingAgreesAt(ps, qs, scores, k, i);
    }
    if ps[j] != qs[j] {
      BestOfRest(ps, scores, k, j, qs[j]);
      BestOfRest(qs, scores, k, j, ps[j]);
      assert false;
    }
  }

  /** Entry `j` of a ranking is ranked ahead of every other position not
      already listed before it. */
  lemma BestOfRest(ps: seq<nat>, scores: seq<int>, k: nat, j: nat, x: nat)
    requires IsRanking(ps, scores, k) && j < k && x < |scores|
    requires x != ps[j] && x !in ps[..j]
    ensures Ahead(scores, ps[j], x)
  {
    if x in ps {
      var m :| 0 <= m < k && ps[m] == x;
      assert m > j;
    }
  }
}
