/** The job recommender: a catalog of postings, each with a composite text
    and an embedding, and a query path that cleans the résumé text, keeps
    the lexically best candidates and ranks them by inner product with the
    résumé's embedding.

    The sentence encoder, the inner product of its embedding space and the
    TF-IDF scorer are parameters: `encode` maps a text to an opaque
    embedding, `ip` scores two embeddings with an integer, and `lexical`
    scores every catalog text against a query. */
module Recommender {
  import opened TextNormalizer
  import opened Selection
  import opened SimilarityIndex

  /** One catalog row: the five text columns the recommender reads. */
  datatype Posting = Posting(
    workplace: string,
    workingMode: string,
    position: string,
    jobRoleAndDuties: string,
    requisiteSkill: string)

  /** A catalog row together with its derived `job_text` column. */
  datatype JobRecord = JobRecord(posting: Posting, jobText: string)

  /** What the pre-filter hands on: texts, records and embeddings of the
      candidates, position j of each belonging to the same catalog row. */
  datatype Candidates<E> = Candidates(texts: seq<string>, records: seq<JobRecord>, embeddings: seq<E>)

  /** How many candidates the pre-filter keeps per query. */
  const CandidatePool: int := 100

  // ---------------------------------------------------------------------
  // Composite text

  /** The columns joined into `job_text`, in their fixed order. */
  function Fields(p: Posting): seq<string> {
    [p.workplace, p.workingMode, p.position, p.jobRoleAndDuties, p.requisiteSkill]
  }

  /** The parts separated by single spaces. */
  function Join(parts: seq<string>): string {
    if |parts| == 0 then ""
    else if |parts| == 1 then parts[0]
    else parts[0] + " " + Join(parts[1..])
  }

  /** Where part `k` starts in `Join(parts)`. */
  function Offset(parts: seq<string>, k: nat): nat
    requires k <= |parts|
  {
    if k == 0 then 0 else |parts[0]| + 1 + Offset(parts[1..], k - 1)
  }

  /** The composite `job_text` of a row. */
  function Composite(p: Posting): string {
    Join(Fields(p))
  }

  /** Part `k` of `Join(parts)` sits at `Offset(parts, k)`. */
  lemma {:induction false} JoinPart(parts: seq<string>, k: nat)
    requires k < |parts|
    ensures Offset(parts, k) + |parts[k]| <= |Join(parts)|
    ensures Join(parts)[Offset(parts, k)..Offset(parts, k) + |parts[k]|] == parts[k]
  {
    if k > 0 {
      var rest := Join(parts[1..]);
      var o := Offset(parts[1..], k - 1);
      var shift := |parts[0]| + 1;
      JoinPart(parts[1..], k - 1);
      assert Join(parts) == (parts[0] + " ") + rest;
      assert Join(parts)[shift..] == rest;
      assert Join(parts)[shift + o..shift + o + |parts[k]|] == rest[o..o + |parts[k]|];
    } else if |parts| > 1 {
      assert Join(parts) == parts[0] + (" " + Join(parts[1..]));
    }
  }

  /** A single space follows every part of `Join(parts)` but the last, and
      the last part ends the text. */
  lemma {:induction false} JoinAfterPart(parts: seq<string>, k: nat)
    requires k < |parts|
    ensures k + 1 < |parts| ==>
      Offset(parts, k) + |parts[k]| < |Join(parts)| && Join(parts)[Offset(parts, k) + |parts[k]|] == ' '
    ensures k + 1 == |parts| ==> Offset(parts, k) + |parts[k]| == |Join(parts)|
  {
    if k > 0 {
      var rest := Join(parts[1..]);
      var shift := |parts[0]| + 1;
      JoinAfterPart(parts[1..], k - 1);
      assert Join(parts) == (parts[0] + " ") + rest;
      assert forall i :: 0 <= i < |rest| ==> Join(parts)[shift + i] == rest[i];
    } else if |parts| > 1 {
      assert Join(parts) == (parts[0] + " ") + Join(parts[1..]);
    }
  }

  /** Consecutive parts are one space apart. */
  lemma {:induction false} OffsetStep(parts: seq<string>, k: nat)
    requires k < |parts|
    ensures Offset(parts, k + 1) == Offset(parts, k) + |parts[k]| + 1
  {
    if k > 0 {
      OffsetStep(parts[1..], k - 1);
    }
  }

  /** The composite text holds the five columns in their fixed order,
      each followed by a single space except the last, and nothing else. */
  lemma CompositeLayout(p: Posting)
    ensures var f := Fields(p);
      var t := Composite(p);
      forall k :: 0 <= k < |f| ==>
        && Offset(f, k) + |f[k]| <= |t|
        && t[Offset(f, k)..Offset(f, k) + |f[k]|] == f[k]
        && (k + 1 < |f| ==> Offset(f, k) + |f[k]| < |t| && t[Offset(f, k) + |f[k]|] == ' ')
  {
    var f := Fields(p);
    forall k | 0 <= k < |f|
      ensures Offset(f, k) + |f[k]| <= |Composite(p)|
      ensures Composite(p)[Offset(f, k)..Offset(f, k) + |f[k]|] == f[k]
      ensures k + 1 < |f| ==>
        Offset(f, k) + |f[k]| < |Composite(p)| && Composite(p)[Offset(f, k) + |f[k]|] == ' '
    {
      JoinPart(f, k);
      JoinAfterPart(f, k);
    }
  }

  /** The composite text is the five columns plus four separators long. */
  lemma CompositeLength(p: Posting)
    ensures |Composite(p)| ==
      |p.workplace| + |p.workingMode| + |p.position| + |p.jobRoleAndDuties| + |p.requisiteSkill| + 4
  {
    var f := Fields(p);
    OffsetStep(f, 0);
    OffsetStep(f, 1);
    OffsetStep(f, 2);
    OffsetStep(f, 3);
    JoinAfterPart(f, 4);
  }

  // ---------------------------------------------------------------------
  // The recommender

  class JobRecommendationSystem<E> {
    /** The catalog rows with the added `job_text` column. */
    const jobsDf: seq<JobRecord>
    /** `job_text` as a list, in row order. */
    const jobsTexts: seq<string>
    /** The copy of the catalog handed back to callers. */
    const jobInfo: seq<JobRecord>
    /** The embedding of each `job_text`, in row order. */
    const jobEmbeddings: seq<E>
    /** The index built over the whole catalog. */
    const index: FlatIndex<E>
    /** The sentence encoder. */
    const encode: string -> E
    /** The inner product of the embedding space. */
    const ip: (E, E) -> int

    /** The catalog-wide tables agree row by row. */
    ghost predicate Aligned() {
      && |jobsTexts| == |jobsDf| && |jobInfo| == |jobsDf| && |jobEmbeddings| == |jobsDf|
      && jobInfo == jobsDf
      && (forall i :: 0 <= i < |jobsDf| ==>
            jobsDf[i].jobText == Composite(jobsDf[i].posting) && jobsTexts[i] == jobsDf[i].jobText)
      && (forall i :: 0 <= i < |jobsTexts| ==> jobEmbeddings[i] == encode(jobsTexts[i]))
    }

    /** The tables agree and the catalog index holds the catalog embeddings. */
    ghost predicate Valid()
      reads index
    {
      Aligned() && index.vectors == jobEmbeddings && index.ip == ip
    }

    /** Builds the catalog tables from `rows`, one entry per row in row
        order, and an index over all of their embeddings. */
    constructor (rows: seq<Posting>, encode: string -> E, ip: (E, E) -> int)
      ensures Valid() && fresh(index)
      ensures |jobsDf| == |rows|
      ensures forall i :: 0 <= i < |rows| ==> jobsDf[i] == JobRecord(rows[i], Composite(rows[i]))
      ensures this.encode == encode && this.ip == ip
    {
      var df := seq(|rows|, i requires 0 <= i < |rows| => JobRecord(rows[i], Composite(rows[i])));
      var texts := seq(|df|, i requires 0 <= i < |df| => df[i].jobText);
      var embeddings := seq(|texts|, i requires 0 <= i < |texts| => encode(texts[i]));
      var idx := new FlatIndex(ip);
      idx.Add(embeddings);
      jobsDf := df;
      jobsTexts := texts;
      jobInfo := df;
      jobEmbeddings := embeddings;
      index := idx;
      this.encode := encode;
      this.ip := ip;
    }

    /** `filter_top_jobs`: keeps the catalog rows that come last in `order`,
        the `numpy.argsort` of the lexical scores, and returns their texts,
        records and embeddings, aligned. Any order `argsort` may return is
        accepted, so tied scores may be kept or dropped either way. */
    function FilterTopJobs(resumeText: string, topN: int, lexical: (seq<string>, string) -> seq<int>,
                           order: seq<nat>): (c: Candidates<E>)
      requires Aligned()
      requires |lexical(jobsTexts, resumeText)| == |jobsTexts|
      requires IsArgsort(order, lexical(jobsTexts, resumeText))
      ensures var scores := lexical(jobsTexts, resumeText);
        var sel := order[TailStart(|jobsTexts|, topN)..];
        && |c.texts| == |sel| && |c.records| == |sel| && |c.embeddings| == |sel|
        && (topN > 0 ==> |sel| == Min(topN, |jobsTexts|))
        && Distinct(sel)
        && (forall j :: 0 <= j < |sel| ==>
              sel[j] < |jobsTexts|
              && c.texts[j] == jobsTexts[sel[j]]
              && c.records[j] == jobInfo[sel[j]]
              && c.embeddings[j] == jobEmbeddings[sel[j]])
        && (forall j, x :: 0 <= j < |sel| && 0 <= x < |scores| && x !in sel ==> scores[x] <= scores[sel[j]])
      ensures forall j :: 0 <= j < |c.records| ==>
        c.records[j].jobText == c.texts[j] && c.embeddings[j] == encode(c.texts[j])
    {
      var scores := lexical(jobsTexts, resumeText);
      var sel := order[TailStart(|jobsTexts|, topN)..];
      SelectionOfAnyArgsort(order, scores, topN);
      Candidates(
        seq(|sel|, j requires 0 <= j < |sel| => jobsTexts[sel[j]]),
        seq(|sel|, j requires 0 <= j < |sel| => jobInfo[sel[j]]),
        seq(|sel|, j requires 0 <= j < |sel| => jobEmbeddings[sel[j]]))
    }

    /** How well a record matches the query text. */
    function Similarity(query: string, r: JobRecord): int {
      ip(encode(query), encode(r.jobText))
    }

    /** Ranking candidates by the inner product of their embeddings orders
        their records by similarity, when each embedding encodes its
        record's text. */
    lemma RankedBySimilarity(query: string, cands: Candidates<E>, ps: seq<nat>, k: nat)
      requires |cands.records| == |cands.embeddings|
      requires forall j :: 0 <= j < |cands.records| ==> cands.embeddings[j] == encode(cands.records[j].jobText)
      requires IsRanking(ps, Scores(cands.embeddings, encode(query), ip), k)
      ensures forall i, j :: 0 <= i < j < k ==>
        Similarity(query, cands.records[ps[i]]) >= Similarity(query, cands.records[ps[j]])
    {
      var scores := Scores(cands.embeddings, encode(query), ip);
      forall i, j | 0 <= i < j < k
        ensures Similarity(query, cands.records[ps[i]]) >= Similarity(query, cands.records[ps[j]])
      {
        assert Ahead(scores, ps[i], ps[j]);
      }
    }

    /** `recommend_jobs`: cleans the résumé text, keeps `CandidatePool`
        lexical candidates by `order`, the `numpy.argsort` of their scores,
        ranks them in a fresh index by inner product with the embedding of
        the same cleaned text, and returns the records at the ranked
        candidate positions. */
    method RecommendJobs(resumeText: string, topN: int, lexical: (seq<string>, string) -> seq<int>,
                         order: seq<nat>)
      returns (recommended: seq<JobRecord>)
      requires Valid()
      requires |lexical(jobsTexts, Clean(resumeText))| == |jobsTexts|
      requires IsArgsort(order, lexical(jobsTexts, Clean(resumeText)))
      requires 0 < topN <= Min(CandidatePool, |jobsTexts|)
      ensures Valid()
      ensures |recommended| == topN
      ensures var query := Clean(resumeText);
        var cands := FilterTopJobs(query, CandidatePool, lexical, order);
        var sel := order[TailStart(|jobsTexts|, CandidatePool)..];
        exists ps ::
          && IsRanking(ps, Scores(cands.embeddings, encode(query), ip), topN)
          && forall j :: 0 <= j < topN ==>
               recommended[j] == cands.records[ps[j]] && recommended[j] == jobInfo[sel[ps[j]]]
      ensures forall i, j :: 0 <= i < j < |recommended| ==>
        Similarity(Clean(resumeText), recommended[i]) >= Similarity(Clean(resumeText), recommended[j])
    {
      var query := Clean(resumeText);
      var cands := FilterTopJobs(query, CandidatePool, lexical, order);
      ghost var sel := order[TailStart(|jobsTexts|, CandidatePool)..];
      var queryEmbedding := encode(query);
      var candidateIndex := new FlatIndex(ip);
      candidateIndex.Add(cands.embeddings);
      assert candidateIndex.vectors == cands.embeddings;
      var positions := candidateIndex.Search(queryEmbedding, topN);
      recommended := seq(|positions|, j requires 0 <= j < |positions| => cands.records[positions[j]]);
      RankedBySimilarity(query, cands, positions, topN);
      TranslatedThroughCandidates(cands, sel, positions, recommended);
    }

    /** Records taken at candidate positions are the catalog rows the
        pre-filter selected at those positions. */
    lemma TranslatedThroughCandidates(cands: Candidates<E>, sel: seq<nat>, ps: seq<nat>, recommended: seq<JobRecord>)
      requires |cands.records| == |sel| && |recommended| == |ps|
      requires forall j :: 0 <= j < |sel| ==> sel[j] < |jobInfo| && cands.records[j] == jobInfo[sel[j]]
      requires forall j :: 0 <= j < |ps| ==> ps[j] < |sel| && recommended[j] == cands.records[ps[j]]
      ensures forall j :: 0 <= j < |ps| ==> recommended[j] == jobInfo[sel[ps[j]]]
    {
    }
  }
}
